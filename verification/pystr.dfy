/** The few pieces of Python's `str` that the application relies on:
    `lower`, `endswith`, `rsplit('.', 1)`, the `strip` family and the
    code-point order used when strings are compared. */
module PyStr {
  import opened Wrappers

  /** Python's `str.lower` on one character, for the ASCII letters. */
  function LowerChar(c: char): char {
    if 'A' <= c <= 'Z' then (c as int + 32) as char else c
  }

  /** `s.lower()` on ASCII: no upper-case letter is left, each one becomes
      its lower-case partner in place, and every other character is kept. */
  function Lower(s: string): (r: string)
    ensures |r| == |s|
    ensures forall i :: 0 <= i < |r| ==> !('A' <= r[i] <= 'Z')
    ensures forall i :: 0 <= i < |s| && !('A' <= s[i] <= 'Z') ==> r[i] == s[i]
    ensures forall i :: 0 <= i < |s| && 'A' <= s[i] <= 'Z' ==>
      'a' <= r[i] <= 'z' && r[i] as int - 'a' as int == s[i] as int - 'A' as int
  {
    seq(|s|, i requires 0 <= i < |s| => LowerChar(s[i]))
  }

  /** Lower-casing works character by character, so it distributes over
      concatenation. */
  lemma LowerConcat(a: string, b: string)
    ensures Lower(a + b) == Lower(a) + Lower(b)
  {
    var l, r := Lower(a + b), Lower(a) + Lower(b);
    forall i | 0 <= i < |l|
      ensures l[i] == r[i]
    {
      if i < |a| {
        assert (a + b)[i] == a[i] && r[i] == Lower(a)[i];
      } else {
        assert (a + b)[i] == b[i - |a|] && r[i] == Lower(b)[i - |a|];
      }
    }
  }

  /** Lower-casing commutes with taking a suffix. */
  lemma LowerSuffix(s: string, k: nat)
    requires k <= |s|
    ensures Lower(s)[k..] == Lower(s[k..])
  {
  }

  /** Lower-casing is idempotent. */
  lemma LowerIdempotent(s: string)
    ensures Lower(Lower(s)) == Lower(s)
  {
  }

  /** `s.endswith(suffix)`. */
  predicate EndsWith(s: string, suffix: string) {
    |suffix| <= |s| && s[|s| - |suffix|..] == suffix
  }

  /** `s.startswith(prefix)`. */
  predicate StartsWith(s: string, prefix: string) {
    |prefix| <= |s| && s[..|prefix|] == prefix
  }

  /** Python's `str.isspace` on one character: the characters `strip()`
      removes when called without an argument. */
  predicate IsSpace(c: char) {
    var n := c as int;
    || 0x09 <= n <= 0x0D
    || 0x1C <= n <= 0x20
    || n == 0x85 || n == 0xA0 || n == 0x1680
    || 0x2000 <= n <= 0x200A
    || n == 0x2028 || n == 0x2029 || n == 0x202F || n == 0x205F || n == 0x3000
  }

  /** Whether `strip(chars)` removes `c`: with no argument (`None`) the
      whitespace characters, otherwise every character that occurs in
      `chars` (a set of characters, not a prefix or suffix). */
  predicate Strips(chars: Option<string>, c: char) {
    match chars
    case None => IsSpace(c)
    case Some(cs) => c in cs
  }

  /** `s.lstrip(chars)`: the longest run of stripped characters at the front
      is removed and nothing else. */
  function LStrip(s: string, chars: Option<string>): (r: string)
    ensures |r| <= |s| && r == s[|s| - |r|..]
    ensures forall i :: 0 <= i < |s| - |r| ==> Strips(chars, s[i])
    ensures r != [] ==> !Strips(chars, r[0])
    decreases |s|
  {
    if s != [] && Strips(chars, s[0]) then LStrip(s[1..], chars) else s
  }

  /** `s.rstrip(chars)`: the longest run of stripped characters at the end
      is removed and nothing else. */
  function RStrip(s: string, chars: Option<string>): (r: string)
    ensures |r| <= |s| && r == s[..|r|]
    ensures forall i :: |r| <= i < |s| ==> Strips(chars, s[i])
    ensures r != [] ==> !Strips(chars, r[|r| - 1])
    decreases |s|
  {
    if s != [] && Strips(chars, s[|s| - 1]) then RStrip(s[..|s| - 1], chars) else s
  }

  /** `s.strip()`: whitespace removed from both ends. */
  function Strip(s: string): string {
    LStrip(RStrip(s, None), None)
  }

  /** `r` occurs in `s` starting at index `i`. */
  predicate SliceAt(s: string, i: int, r: string) {
    0 <= i && i + |r| <= |s| && s[i..i + |r|] == r
  }

  /** `strip()` returns a contiguous piece of its argument. */
  lemma StripIsSlice(s: string)
    ensures SliceAt(s, |RStrip(s, None)| - |Strip(s)|, Strip(s))
  {
    var t := RStrip(s, None);
    var r := Strip(s);
    assert r == t[|t| - |r|..];
    assert t == s[..|t|];
  }

  /** `strip()` leaves no whitespace at either end. */
  lemma StripEnds(s: string)
    ensures Strip(s) != [] ==> !IsSpace(Strip(s)[0]) && !IsSpace(Strip(s)[|Strip(s)| - 1])
  {
    var t := RStrip(s, None);
    var r := Strip(s);
    if r != [] {
      assert r[|r| - 1] == t[|t| - 1];
    }
  }

  /** `s.strip()` is empty exactly when every character of `s` is
      whitespace (which includes the empty string). */
  lemma {:induction false} StripEmptyIffBlank(s: string)
    ensures Strip(s) == [] <==> forall i :: 0 <= i < |s| ==> IsSpace(s[i])
  {
    var t := RStrip(s, None);
    if Strip(s) == [] {
      forall i | 0 <= i < |s|
        ensures IsSpace(s[i])
      {
        if i < |t| {
          assert s[i] == t[i];
        }
      }
    } else {
      StripEnds(s);
    }
  }

  /** Stripping twice is stripping once. */
  lemma StripIdempotent(s: string)
    ensures Strip(Strip(s)) == Strip(s)
  {
    var r := Strip(s);
    StripEnds(s);
    if r != [] {
      assert RStrip(r, None) == r;
      assert LStrip(r, None) == r;
    }
  }

  /** The text after the last `sep`, as `s.rsplit(sep, 1)[1]`; `None` when
      `sep` does not occur (where Python's `[1]` would raise). */
  function AfterLast(s: string, sep: char): (r: Option<string>)
    ensures r.None? <==> sep !in s
    ensures r.Some? ==> EndsWith(s, [sep] + r.value) && sep !in r.value
    decreases |s|
  {
    if s == [] then None
    else if s[|s| - 1] == sep then Some([])
    else match AfterLast(s[..|s| - 1], sep)
         case None => None
         case Some(t) =>
           var p := s[..|s| - 1];
           var last := s[|s| - 1];
           assert s == p + [last];
           assert s[|s| - |t| - 2..] == p[|p| - |t| - 1..] + [last];
           assert [sep] + (t + [last]) == ([sep] + t) + [last];
           assert sep !in t + [last];
           Some(t + [last])
  }

  /** The text after the last `sep` is the unique `sep`-free tail that
      follows a `sep`. */
  lemma {:induction false} AfterLastUnique(s: string, sep: char, t: string)
    requires EndsWith(s, [sep] + t) && sep !in t
    ensures AfterLast(s, sep) == Some(t)
    decreases |s|
  {
    assert s[|s| - |t| - 1] == sep;
    if t != [] {
      var s' := s[..|s| - 1];
      var t' := t[..|t| - 1];
      assert s[|s| - 1] == t[|t| - 1];
      assert s'[|s'| - |t'| - 1..] == [sep] + t';
      AfterLastUnique(s', sep, t');
      assert t' + [s[|s| - 1]] == t;
    }
  }

  /** Lexicographic order on code points: how Python compares `str` values
      and how SQLite's default collation orders ASCII text. */
  predicate Less(a: string, b: string)
    decreases |a|
  {
    if a == [] then b != []
    else if b == [] then false
    else a[0] < b[0] || (a[0] == b[0] && Less(a[1..], b[1..]))
  }

  lemma {:induction false} LessIrreflexive(a: string)
    ensures !Less(a, a)
    decreases |a|
  {
    if a != [] {
      LessIrreflexive(a[1..]);
    }
  }

  lemma {:induction false} LessTransitive(a: string, b: string, c: string)
    requires Less(a, b) && Less(b, c)
    ensures Less(a, c)
    decreases |a|
  {
    if a != [] && b != [] && c != [] && a[0] == b[0] == c[0] {
      LessTransitive(a[1..], b[1..], c[1..]);
    }
  }

  lemma {:induction false} LessTotal(a: string, b: string)
    ensures Less(a, b) || a == b || Less(b, a)
    decreases |a|
  {
    if a != [] && b != [] && a[0] == b[0] {
      LessTotal(a[1..], b[1..]);
      if a[1..] == b[1..] {
        assert a == [a[0]] + a[1..] && b == [b[0]] + b[1..];
      }
    }
  }

  /** "Not less than" is transitive too, so it orders strings from the
      largest down. */
  lemma NotLessTransitive(a: string, b: string, c: string)
    requires !Less(a, b) && !Less(b, c)
    ensures !Less(a, c)
  {
    LessTotal(a, b);
    if Less(a, c) && Less(b, a) {
      LessTransitive(b, a, c);
    }
  }

  lemma LessAsymmetric(a: string, b: string)
    requires Less(a, b)
    ensures !Less(b, a)
  {
    if Less(b, a) {
      LessTransitive(a, b, a);
      LessIrreflexive(a);
    }
  }

  /** Comparing two strings that start with pieces of the same length
      compares those pieces first and the rest only on a tie. */
  lemma {:induction false} LessConcat(a1: string, a2: string, b1: string, b2: string)
    requires |a1| == |b1|
    ensures Less(a1 + a2, b1 + b2) <==> Less(a1, b1) || (a1 == b1 && Less(a2, b2))
    decreases |a1|
  {
    if a1 != [] {
      assert (a1 + a2)[0] == a1[0] && (b1 + b2)[0] == b1[0];
      assert (a1 + a2)[1..] == a1[1..] + a2;
      assert (b1 + b2)[1..] == b1[1..] + b2;
      LessConcat(a1[1..], a2, b1[1..], b2);
      if a1[0] == b1[0] && a1[1..] == b1[1..] {
        assert a1 == [a1[0]] + a1[1..] && b1 == [b1[0]] + b1[1..];
      }
    } else {
      assert a1 + a2 == a2 && b1 + b2 == b2;
    }
  }
}
