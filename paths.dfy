/** Path strings as smartdedupe.py builds and inspects them: `str.split` on
    the path separator, `PATH_SEP.join`, the `"%d"` conversion used for a
    folder's shrunk path, and Python's substring test `a in b`. */
module Paths {

  /** `os.path.sep`.  The proofs below use only that it is one character that
      is neither a digit nor a minus sign nor a brace. */
  const Sep: char := '/'

  // ---------------------------------------------------------------- split/join

  /** Python's `s.split(sep)` with an explicit separator: the maximal
      separator-free runs, empty ones included, so there is always one part
      more than there are separators. */
  function Split(s: string, sep: char): (parts: seq<string>)
    ensures |parts| >= 1
    ensures forall k :: 0 <= k < |parts| ==> sep !in parts[k]
    decreases |s|
  {
    if |s| == 0 then [""]
    else
      var init := Split(s[..|s| - 1], sep);
      var c := s[|s| - 1];
      if c == sep then init + [""]
      else init[..|init| - 1] + [init[|init| - 1] + [c]]
  }

  /** `sep.join(parts)`. */
  function Join(parts: seq<string>, sep: char): string
    requires |parts| >= 1
    decreases |parts|
  {
    if |parts| == 1 then parts[0]
    else Join(parts[..|parts| - 1], sep) + [sep] + parts[|parts| - 1]
  }

  lemma JoinSnoc(parts: seq<string>, x: string, sep: char)
    requires |parts| >= 1
    ensures Join(parts + [x], sep) == Join(parts, sep) + [sep] + x
  {
    assert (parts + [x])[..|parts|] == parts;
  }

  lemma JoinExtendLast(parts: seq<string>, c: char, sep: char)
    requires |parts| >= 1
    ensures Join(parts[..|parts| - 1] + [parts[|parts| - 1] + [c]], sep) == Join(parts, sep) + [c]
  {
    var n := |parts|;
    if n > 1 {
      JoinSnoc(parts[..n - 1], parts[n - 1] + [c], sep);
      assert parts[..n - 1] + [parts[n - 1]] == parts;
      JoinSnoc(parts[..n - 1], parts[n - 1], sep);
    }
  }

  /** Joining the parts of a split gives back the string split. */
  lemma {:induction false} JoinSplit(s: string, sep: char)
    ensures Join(Split(s, sep), sep) == s
    decreases |s|
  {
    if |s| > 0 {
      var s', c := s[..|s| - 1], s[|s| - 1];
      JoinSplit(s', sep);
      assert s == s' + [c];
      SplitSnoc(s', c, sep);
      var init := Split(s', sep);
      if c == sep {
        JoinSnoc(init, "", sep);
      } else {
        JoinExtendLast(init, c, sep);
      }
    }
  }

  /** One more character either opens a new part or extends the last one. */
  lemma SplitSnoc(s: string, c: char, sep: char)
    ensures var init := Split(s, sep);
      Split(s + [c], sep) ==
        if c == sep then init + [""] else init[..|init| - 1] + [init[|init| - 1] + [c]]
  {
    assert (s + [c])[..|s + [c]| - 1] == s;
  }

  /** `full_path.split(PATH_SEP)[-1]`, the name `Folder.__init__` stores. */
  function LastComponent(s: string): string
  {
    var parts := Split(s, Sep);
    parts[|parts| - 1]
  }

  /** The last component is the longest separator-free suffix: it contains no
      separator, it ends the path, and whatever precedes it ends in a
      separator. */
  lemma {:induction false} LastComponentIsSuffix(s: string)
    ensures var r := LastComponent(s);
      Sep !in r && |r| <= |s| && s[|s| - |r|..] == r &&
      (|r| < |s| ==> s[|s| - |r| - 1] == Sep)
    decreases |s|
  {
    if |s| > 0 {
      LastComponentIsSuffix(s[..|s| - 1]);
    }
  }

  /** `PATH_SEP.join((path, file_name))`, as `File.get_full_path` builds it. */
  function FullPath(path: string, name: string): (r: string)
    ensures r == Join([path, name], Sep)
  {
    path + [Sep] + name
  }

  /** Appending a character either starts a new last component or extends it. */
  lemma LastComponentSnoc(s: string, c: char)
    ensures LastComponent(s + [c]) == if c == Sep then "" else LastComponent(s) + [c]
  {
    SplitSnoc(s, c, Sep);
  }

  /** Whatever precedes a separator, the name after it is the last component. */
  lemma {:induction false} LastComponentAfterSep(path: string, name: string)
    requires Sep !in name
    ensures LastComponent(path + [Sep] + name) == name
    decreases |name|
  {
    if |name| == 0 {
      LastComponentSnoc(path, Sep);
    } else {
      var n', c := name[..|name| - 1], name[|name| - 1];
      LastComponentAfterSep(path, n');
      assert path + [Sep] + name == (path + [Sep] + n') + [c];
      LastComponentSnoc(path + [Sep] + n', c);
    }
  }

  /** A full path splits back into its directory and file name, provided the
      name has no separator (names from a directory listing never do). */
  lemma FullPathParts(path: string, name: string)
    requires Sep !in name
    ensures LastComponent(FullPath(path, name)) == name
    ensures FullPath(path, name)[..|path|] == path
  {
    LastComponentAfterSep(path, name);
  }

  /** Two files with separator-free names share a full path only if they share
      both the directory and the name. */
  lemma FullPathInjective(p1: string, n1: string, p2: string, n2: string)
    requires Sep !in n1 && Sep !in n2
    requires FullPath(p1, n1) == FullPath(p2, n2)
    ensures p1 == p2 && n1 == n2
  {
    FullPathParts(p1, n1);
    FullPathParts(p2, n2);
    assert |p1| == |p2|;
  }

  // ------------------------------------------------------------- "%d" format

  function DigitChar(d: nat): (c: char)
    requires d < 10
    ensures '0' <= c <= '9' && c as int - '0' as int == d
  {
    ('0' as int + d) as char
  }

  /** The decimal digits of `n`, most significant first, without leading zeros. */
  function NatDigits(n: nat): (s: string)
    ensures |s| >= 1
    ensures forall k :: 0 <= k < |s| ==> '0' <= s[k] <= '9'
    ensures (s[0] == '0') == (n == 0) && (n == 0 ==> |s| == 1)
    decreases n
  {
    if n < 10 then [DigitChar(n)] else NatDigits(n / 10) + [DigitChar(n % 10)]
  }

  /** `"%d" % n`. */
  function Decimal(n: int): (s: string)
    ensures Sep !in s && '}' !in s && '{' !in s
    ensures CanonicalDecimal(s)
  {
    if n < 0 then "-" + NatDigits(-n) else NatDigits(n)
  }

  /** The value of a string of decimal digits. */
  function ParseNat(s: string): nat
    requires forall k :: 0 <= k < |s| ==> '0' <= s[k] <= '9'
    decreases |s|
  {
    if |s| == 0 then 0
    else ParseNat(s[..|s| - 1]) * 10 + (s[|s| - 1] as int - '0' as int)
  }

  /** Digits, optionally after one leading minus sign. */
  predicate DecimalText(s: string)
  {
    forall k :: 0 <= k < |s| ==> '0' <= s[k] <= '9' || (k == 0 && s[k] == '-')
  }

  /** What `"%d"` writes: digits without leading zeros, after a minus sign
      only for a negative value (so never `-0`). */
  predicate CanonicalDecimal(s: string)
  {
    DecimalText(s) && |s| >= 1 &&
    (s[0] == '-' ==> |s| >= 2 && s[1] != '0') &&
    (s[0] == '0' ==> |s| == 1)
  }

  /** Reading back what `"%d"` wrote. */
  function ParseDecimal(s: string): int
    requires DecimalText(s)
  {
    if |s| > 0 && s[0] == '-' then 0 - ParseNat(s[1..]) else ParseNat(s)
  }

  lemma {:induction false} NatDigitsRoundTrip(n: nat)
    ensures ParseNat(NatDigits(n)) == n
    decreases n
  {
    if n >= 10 {
      NatDigitsRoundTrip(n / 10);
      var s := NatDigits(n);
      assert s[..|s| - 1] == NatDigits(n / 10);
      assert s[|s| - 1] as int - '0' as int == n % 10;
      assert n == (n / 10) * 10 + n % 10;
    }
  }

  /** `"%d"` loses nothing: distinct integers print differently. */
  lemma DecimalRoundTrip(n: int)
    ensures DecimalText(Decimal(n)) && ParseDecimal(Decimal(n)) == n
  {
    var s := Decimal(n);
    if n < 0 {
      var digits := NatDigits(-n);
      NatDigitsRoundTrip(-n);
      assert s == "-" + digits;
      assert s[1..] == digits;
      assert s[0] == '-';
      assert forall k :: 0 <= k < |s| ==> '0' <= s[k] <= '9' || (k == 0 && s[k] == '-') by {
        forall k | 0 <= k < |s| ensures '0' <= s[k] <= '9' || (k == 0 && s[k] == '-') {
          if k > 0 { assert s[k] == digits[k - 1]; }
        }
      }
    } else {
      NatDigitsRoundTrip(n);
      assert s[0] != '-';
    }
  }

  // --------------------------------------------------------------- substring

  predicate IsPrefix(p: string, s: string)
  {
    |p| <= |s| && s[..|p|] == p
  }

  /** `sub` occurs in `s` starting at offset `i`. */
  predicate OccursAt(s: string, sub: string, i: int)
  {
    0 <= i && i + |sub| <= |s| && s[i..i + |sub|] == sub
  }

  /** Python's `sub in s` on strings, scanning `s` from the left. */
  function Contains(s: string, sub: string): bool
    decreases |s|
  {
    IsPrefix(sub, s) || (|s| > 0 && Contains(s[1..], sub))
  }

  /** `Contains` holds exactly when `sub` occurs at some offset. */
  lemma {:induction false} ContainsIff(s: string, sub: string)
    ensures Contains(s, sub) <==> exists i :: OccursAt(s, sub, i)
    decreases |s|
  {
    if IsPrefix(sub, s) {
      assert OccursAt(s, sub, 0);
    } else if |s| > 0 {
      ContainsIff(s[1..], sub);
      if Contains(s[1..], sub) {
        var i :| OccursAt(s[1..], sub, i);
        assert s[1..][i..i + |sub|] == s[i + 1..i + 1 + |sub|];
        assert OccursAt(s, sub, i + 1);
      } else {
        forall i ensures !OccursAt(s, sub, i) {
          if 0 < i && i + |sub| <= |s| {
            assert s[1..][i - 1..i - 1 + |sub|] == s[i..i + |sub|];
            assert !OccursAt(s[1..], sub, i - 1);
          }
        }
      }
    } else {
      forall i ensures !OccursAt(s, sub, i) {
      }
    }
  }

  /** A full path contains every prefix of its directory. */
  lemma PrefixContained(d: string, path: string, name: string)
    requires IsPrefix(d, path)
    ensures Contains(FullPath(path, name), d)
  {
    assert FullPath(path, name)[..|d|] == d;
  }
}
