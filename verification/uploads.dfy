/** The upload gate of `app.py`: which file names the `add` route saves. */
module Uploads {
  import opened Wrappers
  import opened PyStr

  /** `ALLOWED_EXTENSIONS`. */
  const AllowedExtensions: set<string> := {"pdf", "png", "jpg", "jpeg", "txt"}

  /** `allowed_file(filename)`: there is a `.` and the lower-cased text
      after the last one is an allowed extension. */
  predicate AllowedFile(filename: string) {
    '.' in filename && Lower(AfterLast(filename, '.').value) in AllowedExtensions
  }

  /** Ends, after lower-casing, in `.` followed by an allowed extension. */
  predicate HasAllowedSuffix(name: string) {
    exists e | e in AllowedExtensions :: EndsWith(Lower(name), "." + e)
  }

  lemma LowerIsDot(c: char)
    ensures LowerChar(c) == '.' <==> c == '.'
  {
  }

  /** If the lower-cased name ends with `.` and an extension, that
      extension is exactly what follows the name's last `.`. */
  lemma SuffixIsExtension(name: string, ext: string)
    requires ext in AllowedExtensions
    requires EndsWith(Lower(name), "." + ext)
    ensures AllowedFile(name)
  {
    var k := |name| - |ext|;
    var low := Lower(name);
    assert low[k - 1] == '.';
    LowerIsDot(name[k - 1]);
    var t := name[k..];
    LowerSuffix(name, k);
    assert Lower(t) == ext;
    forall i | 0 <= i < |t|
      ensures t[i] != '.'
    {
      assert Lower(t)[i] == LowerChar(t[i]);
      LowerIsDot(t[i]);
    }
    assert name[k - 1..] == [name[k - 1]] + t;
    AfterLastUnique(name, '.', t);
  }

  /** An allowed name ends, lower-cased, in `.` and its extension. */
  lemma AllowedHasSuffix(name: string)
    requires AllowedFile(name)
    ensures HasAllowedSuffix(name)
  {
    var t := AfterLast(name, '.').value;
    var e := Lower(t);
    assert EndsWith(Lower(name), "." + e) by {
      LowerEndsWith(name, "." + t);
      LowerConcat(".", t);
    }
  }

  /** Lower-casing keeps a suffix, lower-cased. */
  lemma LowerEndsWith(s: string, suffix: string)
    requires EndsWith(s, suffix)
    ensures EndsWith(Lower(s), Lower(suffix))
  {
    LowerSuffix(s, |s| - |suffix|);
  }

  /** `allowed_file` holds exactly when the lower-cased name ends in `.`
      and an allowed extension; so a name without a `.`, one that
      ends in `.`, and one like `a.pdf.exe` are all refused. */
  lemma AllowedFileIffSuffix(name: string)
    ensures AllowedFile(name) <==> HasAllowedSuffix(name)
  {
    if AllowedFile(name) {
      AllowedHasSuffix(name);
    } else if HasAllowedSuffix(name) {
      var e :| e in AllowedExtensions && EndsWith(Lower(name), "." + e);
      SuffixIsExtension(name, e);
    }
  }

  /** Only the extension's case could matter, and it does not:
      lower-casing the whole name first gives the same answer. */
  lemma AllowedFileCaseInsensitive(name: string)
    ensures AllowedFile(Lower(name)) == AllowedFile(name)
  {
    AllowedFileIffSuffix(name);
    AllowedFileIffSuffix(Lower(name));
    LowerIdempotent(name);
  }

  /** An upper-case extension passes. */
  lemma UpperCaseAccepted(name: string)
    requires name == "X.PDF"
    ensures AllowedFile(name)
  {
    assert Lower(name)[1..] == ".pdf";
    SuffixIsExtension(name, "pdf");
  }

  /** A name that is only an extension passes. */
  lemma BareExtensionAccepted(name: string)
    requires name == ".txt"
    ensures AllowedFile(name)
  {
    assert Lower(name) == ".txt";
    SuffixIsExtension(name, "txt");
  }

  /** Only the last extension decides: `a.pdf.exe` is refused. */
  lemma LastExtensionDecides(name: string)
    requires name == "a.pdf.exe"
    ensures !AllowedFile(name)
  {
    assert AfterLast(name, '.') == Some("exe") by {
      assert name[5..] == "." + "exe";
      AfterLastUnique(name, '.', "exe");
    }
    assert Lower("exe") == "exe";
  }

  /** A name without a `.` is refused. */
  lemma NoDotRejected(name: string)
    requires name == "notes"
    ensures !AllowedFile(name)
  {
    assert name[0] != '.' && name[1] != '.' && name[2] != '.';
  }

  /** A name ending in `.` has an empty extension and is refused. */
  lemma EmptyExtensionRejected(name: string)
    requires name == "notes."
    ensures !AllowedFile(name)
  {
    assert AfterLast(name, '.') == Some([]) by {
      AfterLastUnique(name, '.', []);
    }
  }
}
