/** String helpers with the meaning JavaScript gives them in the extension's
    scripts: `trim`, `toLowerCase`/`toUpperCase` (ASCII letters only),
    `startsWith`, `indexOf`, `includes`, `substring`, and de-duplication
    through a `Set` (first occurrence kept, insertion order). */
module Text {

  datatype Option<+T> = None | Some(value: T)

  /** An optional string as a condition: `null`, `undefined` and `''` are false. */
  predicate Truthy(v: Option<string>) {
    v.Some? && v.value != ""
  }

  /** The text of an optional string, empty when there is none. */
  function Content(v: Option<string>): string {
    if v.Some? then v.value else ""
  }

  /** The characters `String.prototype.trim` removes: WhiteSpace and
      LineTerminator of ECMAScript (section 12.2 and 12.3 of ECMA-262). */
  predicate IsWhite(c: char) {
    c == ' ' || c == '\t' || c == '\n' || c == '\r' || c == '\U{0B}' || c == '\U{0C}'
    || c == '\U{A0}' || c == '\U{1680}' || ('\U{2000}' <= c <= '\U{200A}')
    || c == '\U{2028}' || c == '\U{2029}' || c == '\U{202F}' || c == '\U{205F}'
    || c == '\U{3000}' || c == '\U{FEFF}'
  }

  function TrimStart(s: string): (r: string)
    ensures |r| <= |s|
  {
    if s != [] && IsWhite(s[0]) then TrimStart(s[1..]) else s
  }

  function TrimEnd(s: string): (r: string)
    ensures |r| <= |s|
  {
    if s != [] && IsWhite(s[|s| - 1]) then TrimEnd(s[..|s| - 1]) else s
  }

  /** `s.trim()`; `TrimIsCore` says what it yields. */
  function Trim(s: string): (r: string)
    ensures |r| <= |s|
  {
    TrimEnd(TrimStart(s))
  }

  /** `TrimStart` drops the longest white prefix. */
  lemma {:induction false} TrimStartDropsWhitePrefix(s: string)
    ensures var r := TrimStart(s);
            && r == s[|s| - |r|..]
            && (r == [] || !IsWhite(r[0]))
            && forall i :: 0 <= i < |s| - |r| ==> IsWhite(s[i])
  {
    if s != [] && IsWhite(s[0]) {
      TrimStartDropsWhitePrefix(s[1..]);
    }
  }

  /** `TrimEnd` drops the longest white suffix. */
  lemma {:induction false} TrimEndDropsWhiteSuffix(s: string)
    ensures var r := TrimEnd(s);
            && r == s[..|r|]
            && (r == [] || !IsWhite(r[|r| - 1]))
            && forall i :: |r| <= i < |s| ==> IsWhite(s[i])
  {
    if s != [] && IsWhite(s[|s| - 1]) {
      TrimEndDropsWhiteSuffix(s[..|s| - 1]);
    }
  }

  /** `s.trim()` is the infix of `s` that starts and ends with a non-white
      character and leaves only white characters around it; it is empty
      exactly when `s` is all white. */
  lemma TrimIsCore(s: string)
    ensures var r := Trim(s);
            && (r == [] || (!IsWhite(r[0]) && !IsWhite(r[|r| - 1])))
            && Contains(s, r)
            && (r == [] <==> forall i :: 0 <= i < |s| ==> IsWhite(s[i]))
  {
    var t := TrimStart(s);
    TrimStartDropsWhitePrefix(s);
    TrimEndDropsWhiteSuffix(t);
    var r := TrimEnd(t);
    assert OccursAt(s, r, |s| - |t|);
  }

  function LowerChar(c: char): char {
    if 'A' <= c <= 'Z' then (c as int + 32) as char else c
  }

  function UpperChar(c: char): char {
    if 'a' <= c <= 'z' then (c as int - 32) as char else c
  }

  /** `s.toLowerCase()` on ASCII letters. */
  function Lower(s: string): (r: string)
    ensures |r| == |s|
    ensures forall i :: 0 <= i < |s| ==> r[i] == LowerChar(s[i])
  {
    if s == [] then [] else [LowerChar(s[0])] + Lower(s[1..])
  }

  /** `capitalize` of the side panel: first character upper-cased. */
  function Capitalize(s: string): (r: string)
    ensures |r| == |s|
    ensures s != [] ==> r[0] == UpperChar(s[0]) && r[1..] == s[1..]
  {
    if s == [] then [] else [UpperChar(s[0])] + s[1..]
  }

  predicate StartsWith(s: string, p: string) {
    |p| <= |s| && s[..|p|] == p
  }

  predicate OccursAt(s: string, p: string, i: nat) {
    i + |p| <= |s| && s[i..i + |p|] == p
  }

  /** `s.includes(p)` */
  predicate Contains(s: string, p: string) {
    exists i: nat | i <= |s| :: OccursAt(s, p, i)
  }

  function IndexOfFrom(s: string, p: string, from: nat): (r: int)
    requires from <= |s|
    ensures r == -1 || (from <= r <= |s| && OccursAt(s, p, r))
    ensures r == -1 ==> forall i: nat :: from <= i ==> !OccursAt(s, p, i)
    ensures r != -1 ==> forall i: nat :: from <= i < r ==> !OccursAt(s, p, i)
    decreases |s| - from
  {
    if OccursAt(s, p, from) then from
    else if from == |s| then
      assert forall i: nat :: from <= i ==> !OccursAt(s, p, i) by {
        forall i: nat | from <= i ensures !OccursAt(s, p, i) {
          if i > from { assert i + |p| > |s|; }
        }
      }
      -1
    else IndexOfFrom(s, p, from + 1)
  }

  /** `s.indexOf(p)`: the first occurrence, or -1. */
  function IndexOf(s: string, p: string): (r: int)
    ensures r == -1 <==> !Contains(s, p)
    ensures r != -1 ==> 0 <= r <= |s| && OccursAt(s, p, r)
    ensures r != -1 ==> forall i: nat :: i < r ==> !OccursAt(s, p, i)
  {
    IndexOfFrom(s, p, 0)
  }

  function Clamp(x: int, n: nat): (r: nat)
    ensures r <= n
  {
    if x < 0 then 0 else if x > n then n else x
  }

  /** `s.substring(a, b)`: both ends clamped into [0, |s|], swapped
      when the start lies after the end. */
  function Substring(s: string, a: int, b: int): string
  {
    var lo, hi := Clamp(a, |s|), Clamp(b, |s|);
    if lo <= hi then s[lo..hi] else s[hi..lo]
  }

  /** `s.substring(a)` */
  function SubstringFrom(s: string, a: int): string
  {
    Substring(s, a, |s|)
  }

  predicate NoDuplicates<T(==)>(xs: seq<T>) {
    forall i, j :: 0 <= i < j < |xs| ==> xs[i] != xs[j]
  }

  /** `[...new Set(xs)]`: the distinct elements of `xs`, each at the place
      of its first occurrence. */
  function Dedup<T(==,!new)>(xs: seq<T>): (r: seq<T>)
    ensures NoDuplicates(r)
    ensures forall x :: x in r <==> x in xs
    ensures xs != [] ==> r != [] && r[0] == xs[0]
    ensures |r| <= |xs|
  {
    if xs == [] then []
    else
      var d := Dedup(xs[..|xs| - 1]);
      var x := xs[|xs| - 1];
      assert forall y :: y in xs <==> y in xs[..|xs| - 1] || y == x by {
        assert xs == xs[..|xs| - 1] + [x];
      }
      if x in d then d else d + [x]
  }

  function DigitChar(d: nat): char
    requires d < 10
  {
    "0123456789"[d]
  }

  /** Decimal rendering of a natural number, as template literals print it. */
  function NatToString(n: nat): (r: string)
    ensures r != []
    ensures forall i :: 0 <= i < |r| ==> '0' <= r[i] <= '9'
    ensures (r[0] == '0') <==> n == 0
    decreases n
  {
    if n < 10 then [DigitChar(n)] else NatToString(n / 10) + [DigitChar(n % 10)]
  }

  /** `xs.filter(x => x !== y)` */
  function Without<T(==,!new)>(xs: seq<T>, y: T): (r: seq<T>)
    ensures forall x :: x in r <==> x in xs && x != y
    ensures |r| <= |xs|
  {
    if xs == [] then []
    else (if xs[0] == y then [] else [xs[0]]) + Without(xs[1..], y)
  }

  lemma AppendAssoc<T>(a: seq<T>, b: seq<T>, c: seq<T>)
    ensures a + b + c == a + (b + c)
  {
  }

  /** A chain of `+=`: the parts one after the other. */
  function Concat(parts: seq<string>): (r: string)
    ensures parts == [] ==> r == ""
  {
    if parts == [] then "" else Concat(parts[..|parts| - 1]) + parts[|parts| - 1]
  }

  lemma ConcatStep(parts: seq<string>, k: nat)
    requires k < |parts|
    ensures Concat(parts[..k + 1]) == Concat(parts[..k]) + parts[k]
  {
    assert parts[..k + 1][..k] == parts[..k];
  }

  /** Joining a prefix of the parts gives a prefix of the whole. */
  lemma {:induction false} ConcatPrefix(parts: seq<string>, k: nat)
    requires k <= |parts|
    ensures StartsWith(Concat(parts), Concat(parts[..k]))
    decreases |parts|
  {
    if k == |parts| {
      assert parts[..k] == parts;
    } else {
      var init := parts[..|parts| - 1];
      ConcatPrefix(init, k);
      assert init[..k] == parts[..k];
    }
  }

  /** Part `k` sits right after the parts before it. */
  lemma ConcatPartAt(parts: seq<string>, k: nat)
    requires k < |parts|
    ensures OccursAt(Concat(parts), parts[k], |Concat(parts[..k])|)
  {
    ConcatStep(parts, k);
    ConcatPrefix(parts, k + 1);
    var whole, before := Concat(parts), Concat(parts[..k]);
    assert whole[..|before| + |parts[k]|] == before + parts[k];
    assert whole[|before|..|before| + |parts[k]|] == (before + parts[k])[|before|..];
  }

  /** The parts appear in their order: part `j` ends before part `k` starts. */
  lemma ConcatInOrder(parts: seq<string>, j: nat, k: nat)
    requires j < k <= |parts|
    ensures |Concat(parts[..j])| + |parts[j]| <= |Concat(parts[..k])|
  {
    ConcatStep(parts, j);
    ConcatPrefix(parts[..k], j + 1);
    assert parts[..k][..j + 1] == parts[..j + 1];
  }

  lemma OccursWithin(a: string, b: string, c: string, i: nat, j: nat)
    requires OccursAt(a, b, i) && OccursAt(b, c, j)
    ensures OccursAt(a, c, i + j)
  {
    forall t | 0 <= t < |c|
      ensures a[i + j..i + j + |c|][t] == c[t]
    {
      assert a[i + j + t] == a[i..i + |b|][j + t];
      assert b[j + t] == b[j..j + |c|][t];
    }
  }

  lemma {:induction false} WithoutAbsent<T(!new)>(xs: seq<T>, y: T)
    requires y !in xs
    ensures Without(xs, y) == xs
  {
    if xs != [] {
      WithoutAbsent(xs[1..], y);
    }
  }

  /** Filtering out an element of a list without duplicates removes just
      that one element and keeps the others in their order. */
  lemma {:induction false} WithoutRemovesAt<T(!new)>(xs: seq<T>, k: nat)
    requires NoDuplicates(xs) && k < |xs|
    ensures Without(xs, xs[k]) == xs[..k] + xs[k + 1..]
    ensures NoDuplicates(Without(xs, xs[k])) && |Without(xs, xs[k])| == |xs| - 1
  {
    if k == 0 {
      assert xs[0] !in xs[1..];
      WithoutAbsent(xs[1..], xs[0]);
    } else {
      var tail := xs[1..];
      assert tail[k - 1] == xs[k];
      WithoutRemovesAt(tail, k - 1);
      assert xs[..k] == [xs[0]] + tail[..k - 1];
      assert xs[k + 1..] == tail[k..];
    }
    RemoveAtKeepsDistinct(xs, k);
  }

  lemma RemoveAtKeepsDistinct<T>(xs: seq<T>, k: nat)
    requires NoDuplicates(xs) && k < |xs|
    ensures NoDuplicates(xs[..k] + xs[k + 1..]) && |xs[..k] + xs[k + 1..]| == |xs| - 1
  {
    var r := xs[..k] + xs[k + 1..];
    forall i, j | 0 <= i < j < |r| ensures r[i] != r[j] {
      var i', j' := if i < k then i else i + 1, if j < k then j else j + 1;
      assert r[i] == xs[i'] && r[j] == xs[j'];
    }
  }

  lemma StartsWithJoin(p: string, s: string)
    ensures StartsWith(p + s, p)
  {
    assert (p + s)[..|p|] == p;
  }

  /** An occurrence survives text added in front of it, shifted. */
  lemma OccursAfter(p: string, s: string, x: string, i: nat)
    requires OccursAt(s, x, i)
    ensures OccursAt(p + s, x, |p| + i)
  {
    assert (p + s)[|p| + i..|p| + i + |x|] == s[i..i + |x|];
  }

  /** An occurrence survives text added after it. */
  lemma OccursBefore(s: string, q: string, x: string, i: nat)
    requires OccursAt(s, x, i)
    ensures OccursAt(s + q, x, i)
  {
    assert (s + q)[i..i + |x|] == s[i..i + |x|];
  }

  lemma OccursAtEnd(p: string, x: string)
    ensures OccursAt(p + x, x, |p|)
  {
    assert (p + x)[|p|..|p| + |x|] == x;
  }

  lemma ContainsShift(p: string, s: string, q: string, w: string)
    requires Contains(s, w)
    ensures Contains(p + s, w) && Contains(s + q, w)
  {
    var i: nat :| i <= |s| && OccursAt(s, w, i);
    OccursAfter(p, s, w, i);
    OccursBefore(s, q, w, i);
  }
}
