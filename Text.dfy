/** Python `str` operations used by the bot, on Dafny strings (sequences of
    Unicode code points, so `|s|` is Python's `len(s)`). */
module Text {

  /** `s.startswith(p)` */
  predicate StartsWith(s: string, p: string) {
    |p| <= |s| && s[..|p|] == p
  }

  /** `sub` occurs in `s` at position `i`. */
  predicate OccursAt(s: string, sub: string, i: int) {
    0 <= i && i + |sub| <= |s| && s[i..i + |sub|] == sub
  }

  /** `sub in s` for strings, as a scan from the left. */
  predicate Contains(s: string, sub: string)
    decreases |s|
  {
    StartsWith(s, sub) || (s != [] && Contains(s[1..], sub))
  }

  /** A prefix of `p` is a prefix of anything that starts with `p`. */
  lemma StartsWithAppend(p: string, s: string, q: string)
    requires StartsWith(p, q)
    ensures StartsWith(p + s, q)
  {
    assert (p + s)[..|q|] == p[..|q|];
  }

  /** Occurrences in the tail are the occurrences in `s` shifted by one. */
  lemma OccursShift(s: string, sub: string, i: nat)
    requires s != []
    ensures OccursAt(s[1..], sub, i) <==> OccursAt(s, sub, i + 1)
  {
    if i + 1 + |sub| <= |s| {
      assert s[1..][i..i + |sub|] == s[i + 1..i + 1 + |sub|];
    }
  }

  /** The scan finds `sub` exactly when it occurs somewhere in `s`. */
  lemma {:induction false} ContainsIff(s: string, sub: string)
    ensures Contains(s, sub) <==> exists i :: OccursAt(s, sub, i)
    decreases |s|
  {
    if StartsWith(s, sub) {
      assert OccursAt(s, sub, 0);
    } else if s != [] {
      ContainsIff(s[1..], sub);
      forall j: nat | OccursAt(s[1..], sub, j) ensures OccursAt(s, sub, j + 1) {
        OccursShift(s, sub, j);
      }
      forall i | OccursAt(s, sub, i) ensures OccursAt(s[1..], sub, i - 1) {
        assert s[..|sub|] == s[0..|sub|];
        OccursShift(s, sub, i - 1);
      }
    } else {
      assert !OccursAt(s, sub, 0);
    }
  }

  /** A string that contains `sub` still contains it after a prefix is put in front. */
  lemma ContainsAfterPrefix(p: string, s: string, sub: string)
    requires Contains(s, sub)
    ensures Contains(p + s, sub)
  {
    ContainsIff(s, sub);
    var i :| OccursAt(s, sub, i);
    assert (p + s)[|p| + i..|p| + i + |sub|] == s[i..i + |sub|];
    assert OccursAt(p + s, sub, |p| + i);
    ContainsIff(p + s, sub);
  }

  /** `c.isspace()` for Python 3 `str`: the characters `str.strip` removes. */
  predicate IsSpace(c: char) {
    c == ' ' || ('\t' <= c <= '\r') || ('\U{1C}' <= c <= '\U{1F}')
    || c == '\U{85}' || c == '\U{A0}' || c == '\U{1680}'
    || ('\U{2000}' <= c <= '\U{200A}') || c == '\U{2028}' || c == '\U{2029}'
    || c == '\U{202F}' || c == '\U{205F}' || c == '\U{3000}'
  }

  /** `s.rstrip()`: drops the trailing whitespace. */
  function RStrip(s: string): (r: string)
    ensures |r| <= |s|
    decreases |s|
  {
    if s != [] && IsSpace(s[|s| - 1]) then RStrip(s[..|s| - 1]) else s
  }

  /** `rstrip` keeps the longest prefix that does not end in whitespace and
      after which only whitespace follows. */
  lemma {:induction false} RStripSpec(s: string)
    ensures RStrip(s) == s[..|RStrip(s)|]
    ensures forall i :: |RStrip(s)| <= i < |s| ==> IsSpace(s[i])
    ensures RStrip(s) == [] || !IsSpace(RStrip(s)[|RStrip(s)| - 1])
    decreases |s|
  {
    if s != [] && IsSpace(s[|s| - 1]) {
      RStripSpec(s[..|s| - 1]);
    }
  }

  /** `rstrip` is idempotent. */
  lemma RStripTwice(s: string)
    ensures RStrip(RStrip(s)) == RStrip(s)
  {
    RStripSpec(s);
  }

  /** `s.lstrip()`: drops the leading whitespace. */
  function LStrip(s: string): (r: string)
    ensures |r| <= |s|
    decreases |s|
  {
    if s != [] && IsSpace(s[0]) then LStrip(s[1..]) else s
  }

  /** `lstrip` keeps the longest suffix that does not start with whitespace
      and before which only whitespace comes. */
  lemma {:induction false} LStripSpec(s: string)
    ensures LStrip(s) == s[|s| - |LStrip(s)|..]
    ensures forall i :: 0 <= i < |s| - |LStrip(s)| ==> IsSpace(s[i])
    ensures LStrip(s) == [] || !IsSpace(LStrip(s)[0])
    decreases |s|
  {
    if s != [] && IsSpace(s[0]) {
      LStripSpec(s[1..]);
    }
  }

  /** `s.strip()` */
  function Strip(s: string): string {
    LStrip(RStrip(s))
  }

  /** A non-space character at position `j` survives `rstrip`. */
  lemma RStripKeeps(s: string, j: nat)
    requires j < |s| && !IsSpace(s[j])
    ensures |RStrip(s)| > j && RStrip(s)[..j + 1] == s[..j + 1]
  {
    RStripSpec(s);
  }

  /** Stripping a string that starts with a non-space character changes
      nothing at the front and keeps every non-space character. */
  lemma StripKeepsFront(s: string, j: nat)
    requires s != [] && !IsSpace(s[0])
    requires j < |s| && !IsSpace(s[j])
    ensures |Strip(s)| > j && Strip(s)[..j + 1] == s[..j + 1]
  {
    RStripKeeps(s, j);
    var r := RStrip(s);
    assert r[0] == s[0];
    assert LStrip(r) == r;
  }

  /** `'0' <= c <= '9'` (ASCII decimal digit). */
  predicate IsDigit(c: char) {
    '0' <= c <= '9'
  }

  predicate AllDigits(s: string) {
    forall i :: 0 <= i < |s| ==> IsDigit(s[i])
  }

  function DigitChar(d: nat): (c: char)
    requires d < 10
    ensures IsDigit(c) && c as int - '0' as int == d
  {
    ('0' as int + d) as char
  }

  /** Python's `str(n)` for a non-negative integer: decimal, no leading zero. */
  function NatToString(n: nat): (s: string)
    ensures s != [] && AllDigits(s)
    ensures s[0] == '0' ==> n == 0
    decreases n
  {
    if n < 10 then [DigitChar(n)] else NatToString(n / 10) + [DigitChar(n % 10)]
  }

  /** The value of a string of decimal digits (`int(s)`). */
  function DecimalValue(s: string): nat
    requires AllDigits(s)
    decreases |s|
  {
    if s == [] then 0 else DecimalValue(s[..|s| - 1]) * 10 + (s[|s| - 1] as int - '0' as int)
  }

  /** Reading the decimal rendering back gives the number: `int(str(n)) == n`. */
  lemma {:induction false} NatToStringRoundTrip(n: nat)
    ensures DecimalValue(NatToString(n)) == n
    decreases n
  {
    if n >= 10 {
      NatToStringRoundTrip(n / 10);
      var s := NatToString(n);
      assert s[..|s| - 1] == NatToString(n / 10);
    }
  }

  /** Python's `a < b` on `str`: lexicographic comparison by code point. */
  predicate Below(a: string, b: string)
    decreases |a|
  {
    if a == [] then b != []
    else b != [] && (a[0] < b[0] || (a[0] == b[0] && Below(a[1..], b[1..])))
  }

  lemma {:induction false} BelowIrreflexive(a: string)
    ensures !Below(a, a)
    decreases |a|
  {
    if a != [] {
      BelowIrreflexive(a[1..]);
    }
  }

  lemma {:induction false} BelowTransitive(a: string, b: string, c: string)
    requires Below(a, b) && Below(b, c)
    ensures Below(a, c)
    decreases |a|
  {
    if a != [] && b != [] && c != [] && a[0] == b[0] == c[0] {
      BelowTransitive(a[1..], b[1..], c[1..]);
    }
  }

  lemma {:induction false} BelowTotal(a: string, b: string)
    ensures a == b || Below(a, b) || Below(b, a)
    decreases |a|
  {
    if a != [] && b != [] && a[0] == b[0] {
      BelowTotal(a[1..], b[1..]);
      if a[1..] == b[1..] {
        assert a == [a[0]] + a[1..] && b == [b[0]] + b[1..];
      }
    }
  }

  /** The elements of a sequence, as a set. */
  function Elems(s: seq<string>): set<string> {
    set x | x in s
  }

  lemma ElemsEmpty(s: seq<string>)
    ensures Elems(s) == {} <==> s == []
  {
    if s != [] {
      assert s[0] in Elems(s);
    }
  }

  /** Sorted by `<` with no element repeated. */
  predicate StrictlyAscending(s: seq<string>) {
    forall i, j :: 0 <= i < j < |s| ==> Below(s[i], s[j])
  }

  predicate IsLeast(m: string, xs: set<string>) {
    m in xs && forall y :: y in xs && y != m ==> Below(m, y)
  }

  lemma {:induction false} LeastExists(xs: set<string>)
    requires xs != {}
    ensures exists m :: IsLeast(m, xs)
    decreases |xs|
  {
    var x :| x in xs;
    if xs == {x} {
      assert IsLeast(x, xs);
    } else {
      LeastExists(xs - {x});
      var m :| IsLeast(m, xs - {x});
      BelowTotal(m, x);
      if Below(m, x) {
        assert IsLeast(m, xs);
      } else {
        forall y | y in xs && y != x ensures Below(x, y) {
          if y != m {
            BelowTransitive(x, m, y);
          }
        }
        assert IsLeast(x, xs);
      }
    }
  }

  lemma LeastUnique(xs: set<string>)
    ensures forall m1, m2 :: IsLeast(m1, xs) && IsLeast(m2, xs) ==> m1 == m2
  {
    forall m1, m2 | IsLeast(m1, xs) && IsLeast(m2, xs) ensures m1 == m2 {
      if m1 != m2 {
        BelowTransitive(m1, m2, m1);
        BelowIrreflexive(m1);
      }
    }
  }

  /** The smallest element of a non-empty set of strings. */
  function Least(xs: set<string>): (m: string)
    requires xs != {}
    ensures IsLeast(m, xs)
  {
    LeastExists(xs);
    LeastUnique(xs);
    var m :| IsLeast(m, xs);
    m
  }

  lemma ElemsCons(m: string, rest: seq<string>)
    ensures Elems([m] + rest) == {m} + Elems(rest)
  {
    assert forall x :: x in [m] + rest <==> x == m || x in rest;
  }

  /** The least element of `xs` followed by an ascending listing of the
      other elements is ascending. */
  lemma AscendingCons(m: string, xs: set<string>, rest: seq<string>)
    requires IsLeast(m, xs) && StrictlyAscending(rest) && Elems(rest) == xs - {m}
    ensures StrictlyAscending([m] + rest)
  {
    var r := [m] + rest;
    forall i, j | 0 <= i < j < |r| ensures Below(r[i], r[j]) {
      if i == 0 {
        assert r[j] == rest[j - 1] && rest[j - 1] in Elems(rest);
      } else {
        assert r[i] == rest[i - 1] && r[j] == rest[j - 1];
      }
    }
  }

  /** Python's `sorted(xs)` for a set of strings: its elements, ascending. */
  function SortedOf(xs: set<string>): (r: seq<string>)
    ensures StrictlyAscending(r) && Elems(r) == xs && |r| == |xs|
    decreases |xs|
  {
    if xs == {} then []
    else
      var m := Least(xs);
      var rest := SortedOf(xs - {m});
      AscendingCons(m, xs, rest);
      ElemsCons(m, rest);
      [m] + rest
  }

  /** A strictly ascending sequence is determined by its elements: whatever
      sorts a set gives the same sequence as `SortedOf`. */
  lemma {:induction false} AscendingUnique(a: seq<string>, b: seq<string>)
    requires StrictlyAscending(a) && StrictlyAscending(b) && Elems(a) == Elems(b)
    ensures a == b
    decreases |a|
  {
    if a != [] && b != [] {
      assert a[0] in Elems(b) && b[0] in Elems(a);
      if a[0] != b[0] {
        var i :| 0 <= i < |b| && b[i] == a[0];
        var j :| 0 <= j < |a| && a[j] == b[0];
        assert Below(b[0], a[0]) && Below(a[0], b[0]);
        BelowTransitive(a[0], b[0], a[0]);
        BelowIrreflexive(a[0]);
      }
      forall x ensures x in Elems(a[1..]) <==> x in Elems(b[1..]) {
        if x in Elems(a[1..]) {
          var i :| 1 <= i < |a| && a[i] == x;
          assert Below(a[0], x);
          BelowIrreflexive(x);
          assert x in Elems(b) && x != b[0];
          var k :| 0 <= k < |b| && b[k] == x;
          assert k != 0;
        }
        if x in Elems(b[1..]) {
          var i :| 1 <= i < |b| && b[i] == x;
          assert Below(b[0], x);
          BelowIrreflexive(x);
          assert x in Elems(a) && x != a[0];
          var k :| 0 <= k < |a| && a[k] == x;
          assert k != 0;
        }
      }
      AscendingUnique(a[1..], b[1..]);
      assert a == [a[0]] + a[1..] && b == [b[0]] + b[1..];
    } else {
      ElemsEmpty(a);
      ElemsEmpty(b);
    }
  }

  /** Joins a sequence of sequences end to end (`"".join(ss)` for strings). */
  function Concat<T>(ss: seq<seq<T>>): seq<T>
    decreases |ss|
  {
    if ss == [] then [] else Concat(ss[..|ss| - 1]) + ss[|ss| - 1]
  }

  /** Appending one more part to the parts appends it to the joined result. */
  lemma ConcatSnoc<T>(ss: seq<seq<T>>, x: seq<T>)
    ensures Concat(ss + [x]) == Concat(ss) + x
  {
    assert (ss + [x])[..|ss|] == ss;
  }

  /** The joined result starts with the first part. */
  lemma {:induction false} ConcatFront<T>(ss: seq<seq<T>>)
    requires ss != []
    ensures |ss[0]| <= |Concat(ss)| && Concat(ss)[..|ss[0]|] == ss[0]
    decreases |ss|
  {
    var init := ss[..|ss| - 1];
    if init != [] {
      ConcatFront(init);
      assert init[0] == ss[0];
    }
  }

  /** Every element of every part is an element of the joined result. */
  lemma {:induction false} ConcatElem<T>(ss: seq<seq<T>>, k: nat, j: nat)
    requires k < |ss| && j < |ss[k]|
    ensures ss[k][j] in Concat(ss)
    decreases |ss|
  {
    var init := ss[..|ss| - 1];
    if k < |init| {
      ConcatElem(init, k, j);
      assert init[k] == ss[k];
    }
  }

  lemma AppendAssoc<T>(a: seq<T>, b: seq<T>, c: seq<T>)
    ensures a + (b + c) == (a + b) + c
  {
  }

  lemma TakeSnoc<T>(s: seq<T>, i: nat)
    requires 0 < i <= |s|
    ensures s[..i - 1] + [s[i - 1]] == s[..i]
  {
  }

  lemma TakeOfSnoc<T>(s: seq<T>, x: T, j: nat)
    requires j <= |s|
    ensures (s + [x])[..j] == s[..j]
  {
  }
}
