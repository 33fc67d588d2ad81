/**
 * The Python `str` and `list` operations the chatbot relies on, with Python's
 * own semantics: `strip()`, `lower()`, slicing with negative and out-of-range
 * bounds, `sep.join(...)`, `str.replace` of one character, `str(int)`.
 */
module PyText {

  /** The characters for which `str.isspace()` holds; `str.strip()` removes them. */
  predicate IsSpace(c: char) {
    || c == ' '
    || ('\t' <= c <= '\r')
    || ('\U{1C}' <= c <= '\U{1F}')
    || c == '\U{85}' || c == '\U{A0}' || c == '\U{1680}'
    || ('\U{2000}' <= c <= '\U{200A}')
    || c == '\U{2028}' || c == '\U{2029}' || c == '\U{202F}' || c == '\U{205F}' || c == '\U{3000}'
  }

  /** `s.lstrip()` */
  function LStrip(s: string): string
    decreases |s|
  {
    if |s| > 0 && IsSpace(s[0]) then LStrip(s[1..]) else s
  }

  /** `s.rstrip()` */
  function RStrip(s: string): string
    decreases |s|
  {
    if |s| > 0 && IsSpace(s[|s| - 1]) then RStrip(s[..|s| - 1]) else s
  }

  /** `s.lstrip()` drops the leading white space of `s` and keeps the rest. */
  lemma {:induction false} LStripShape(s: string)
    ensures var r := LStrip(s);
      && |r| <= |s| && r == s[|s| - |r|..]
      && (r == [] || !IsSpace(r[0]))
      && (forall k :: 0 <= k < |s| - |r| ==> IsSpace(s[k]))
    decreases |s|
  {
    if |s| > 0 && IsSpace(s[0]) {
      LStripShape(s[1..]);
    }
  }

  /** `s.rstrip()` drops the trailing white space of `s` and keeps the rest. */
  lemma {:induction false} RStripShape(s: string)
    ensures var r := RStrip(s);
      && |r| <= |s| && r == s[..|r|]
      && (r == [] || !IsSpace(r[|r| - 1]))
      && (forall k :: |r| <= k < |s| ==> IsSpace(s[k]))
    decreases |s|
  {
    if |s| > 0 && IsSpace(s[|s| - 1]) {
      RStripShape(s[..|s| - 1]);
    }
  }

  /** `s.strip()` */
  function Strip(s: string): string {
    RStrip(LStrip(s))
  }

  /**
   * `s.strip()` is the piece of `s` left after removing white space from both
   * ends: everything before and after it is white space, it neither starts nor
   * ends with white space, and it is empty exactly when `s` is all white space.
   */
  lemma StripShape(s: string)
    ensures var r := Strip(s);
      && |r| <= |s|
      && (exists i :: StartsAt(s, i, r) && (forall k | 0 <= k < i :: IsSpace(s[k]))
                                         && (forall k | i + |r| <= k < |s| :: IsSpace(s[k])))
      && (r != [] ==> !IsSpace(r[0]) && !IsSpace(r[|r| - 1]))
      && (r == [] <==> forall k :: 0 <= k < |s| ==> IsSpace(s[k]))
  {
    StripFacts(s);
    var r := Strip(s);
    assert StartsAt(s, |s| - |LStrip(s)|, r);
  }

  lemma StripFacts(s: string)
    ensures var r := RStrip(LStrip(s));
      && |r| <= |s|
      && StartsAt(s, |s| - |LStrip(s)|, r)
      && (forall k | 0 <= k < |s| - |LStrip(s)| :: IsSpace(s[k]))
      && (forall k | |s| - |LStrip(s)| + |r| <= k < |s| :: IsSpace(s[k]))
      && (r != [] ==> !IsSpace(r[0]) && !IsSpace(r[|r| - 1]))
      && (r == [] <==> forall k :: 0 <= k < |s| ==> IsSpace(s[k]))
  {
    var l := LStrip(s);
    var r := RStrip(l);
    var d := |s| - |l|;
    LStripShape(s);
    RStripShape(l);
    SliceOfSuffix(s, d, l, r);
    forall k | d + |r| <= k < |s| ensures IsSpace(s[k]) {
      assert s[k] == l[k - d];
    }
    if r != [] {
      assert r[0] == l[0];
    }
    StripEmpty(s, l, r);
  }

  lemma SliceOfSuffix(s: string, d: nat, l: string, r: string)
    requires d <= |s| && l == s[d..] && |r| <= |l| && r == l[..|r|]
    ensures r == s[d..d + |r|]
  {
  }

  lemma StripEmpty(s: string, l: string, r: string)
    requires l == LStrip(s) && r == RStrip(l)
    ensures r == [] <==> forall k :: 0 <= k < |s| ==> IsSpace(s[k])
  {
    LStripShape(s);
    RStripShape(l);
    var d := |s| - |l|;
    if r == [] {
      assert |l| == 0;
    } else {
      assert s[d] == l[0];
    }
  }

  /** Stripping twice is stripping once. */
  lemma {:induction false} StripIdempotent(s: string)
    ensures Strip(Strip(s)) == Strip(s)
  {
    var r := Strip(s);
    StripShape(s);
    if r != [] {
      assert LStrip(r) == r;
      assert RStrip(r) == r;
    }
  }

  /** `c.lower()` on the ASCII letters. */
  function LowerChar(c: char): char {
    if 'A' <= c <= 'Z' then (c as int - 'A' as int + 'a' as int) as char else c
  }

  /** `s.lower()` */
  function Lower(s: string): (r: string)
    ensures |r| == |s|
  {
    seq(|s|, i requires 0 <= i < |s| => LowerChar(s[i]))
  }

  /** Lowering is idempotent, so a query and its lowered form look the same to the classifier. */
  lemma LowerIdempotent(s: string)
    ensures Lower(Lower(s)) == Lower(s)
  {
  }

  /** `s.replace(a, b)` for one-character `a` and `b`. */
  function ReplaceChar(s: string, a: char, b: char): (r: string)
    ensures |r| == |s|
    ensures forall i :: 0 <= i < |s| ==> r[i] == if s[i] == a then b else s[i]
  {
    seq(|s|, i requires 0 <= i < |s| => if s[i] == a then b else s[i])
  }

  /** `p` occurs in `s` at position `i`. */
  predicate StartsAt(s: string, i: int, p: string) {
    0 <= i && i + |p| <= |s| && s[i..i + |p|] == p
  }

  /** An occurrence inside the piece `s[d..e]` is an occurrence in `s`. */
  lemma StartsAtShift(s: string, d: nat, e: nat, i: int, p: string)
    requires d <= e <= |s| && StartsAt(s[d..e], i, p)
    ensures StartsAt(s, d + i, p) && Contains(s, p)
  {
    var q := s[d..e];
    assert forall k :: 0 <= k < |p| ==> s[d + i + k] == q[i + k] == p[k];
    assert s[d + i..d + i + |p|] == p;
    assert StartsAt(s, d + i, p);
  }

  /** `p in s` */
  predicate Contains(s: string, p: string) {
    exists i | 0 <= i <= |s| - |p| :: StartsAt(s, i, p)
  }

  /** `s.endswith(p)` */
  predicate EndsWith(s: string, p: string) {
    |p| <= |s| && s[|s| - |p|..] == p
  }

  /** Python's normalisation of a slice bound `k` for a sequence of length `n`. */
  function SliceBound(k: int, n: nat): (b: nat)
    ensures b <= n
    ensures 0 <= k <= n ==> b == k
    ensures k > n ==> b == n
    ensures k < 0 && 0 <= n + k ==> b == n + k
    ensures n + k < 0 ==> b == 0
  {
    if k < 0 then (if n + k < 0 then 0 else n + k) else if k > n then n else k
  }

  /** `s[i:j]` */
  function Slice<T>(s: seq<T>, i: int, j: int): (r: seq<T>)
    ensures |r| <= |s|
    ensures 0 <= i <= j <= |s| ==> r == s[i..j]
    ensures 0 <= i && 0 <= j ==> |r| <= if j < i then 0 else j - i
  {
    var a, b := SliceBound(i, |s|), SliceBound(j, |s|);
    if a < b then s[a..b] else []
  }

  /** `sep.join(parts)` */
  function Join(sep: string, parts: seq<string>): string
    decreases |parts|
  {
    if |parts| == 0 then ""
    else if |parts| == 1 then parts[0]
    else parts[0] + sep + Join(sep, parts[1..])
  }

  /** Joining never shrinks the parts: the result is at least as long as each one. */
  lemma {:induction false} JoinContainsParts(sep: string, parts: seq<string>, k: nat)
    requires k < |parts|
    ensures |parts[k]| <= |Join(sep, parts)|
    decreases |parts|
  {
    if k > 0 { JoinContainsParts(sep, parts[1..], k - 1); }
  }

  /** The first index of `c` in `s`, or `|s|` when `c` does not occur. */
  function IndexOf(s: string, c: char): (i: nat)
    ensures i <= |s|
    ensures i < |s| ==> s[i] == c
    ensures forall k :: 0 <= k < i ==> s[k] != c
    decreases |s|
  {
    if |s| == 0 then 0 else if s[0] == c then 0 else 1 + IndexOf(s[1..], c)
  }

  /** `s.split(c)` for a one-character separator. */
  function Split(s: string, c: char): (r: seq<string>)
    ensures |r| >= 1
    decreases |s|
  {
    var i := IndexOf(s, c);
    if i == |s| then [s] else [s[..i]] + Split(s[i + 1..], c)
  }

  /** Splitting undoes joining when no part contains the separator. */
  lemma {:induction false} SplitJoin(parts: seq<string>, c: char)
    requires |parts| >= 1
    requires forall k :: 0 <= k < |parts| ==> c !in parts[k]
    ensures Split(Join([c], parts), c) == parts
    decreases |parts|
  {
    var s := Join([c], parts);
    if |parts| == 1 {
      assert IndexOf(s, c) == |s|;
    } else {
      var rest := Join([c], parts[1..]);
      assert s == parts[0] + [c] + rest;
      var p := parts[0];
      assert forall k :: 0 <= k < |p| ==> s[k] == p[k];
      assert s[|p|] == c;
      assert forall k :: 0 <= k < |p| ==> s[k] == p[k] && p[k] in p;
      assert IndexOf(s, c) == |p|;
      assert s[..|p|] == p;
      assert s[|p| + 1..] == rest;
      SplitJoin(parts[1..], c);
      assert parts == [p] + parts[1..];
    }
  }

  function DigitChar(d: nat): char
    requires d < 10
  {
    ('0' as int + d) as char
  }

  /** `str(n)` for a natural number. */
  function NatToString(n: nat): (r: string)
    ensures |r| >= 1
    ensures forall k :: 0 <= k < |r| ==> '0' <= r[k] <= '9'
    decreases n
  {
    if n < 10 then [DigitChar(n)] else NatToString(n / 10) + [DigitChar(n % 10)]
  }

  /** `int(s)` for a string of decimal digits. */
  function ParseNat(s: string): nat
    requires forall k :: 0 <= k < |s| ==> '0' <= s[k] <= '9'
    decreases |s|
  {
    if |s| == 0 then 0 else ParseNat(s[..|s| - 1]) * 10 + (s[|s| - 1] as int - '0' as int)
  }

  /** `int(str(n)) == n`: distinct numbers get distinct decimal strings. */
  lemma {:induction false} ParseNatToString(n: nat)
    ensures ParseNat(NatToString(n)) == n
    decreases n
  {
    if n >= 10 {
      var s := NatToString(n);
      assert s[..|s| - 1] == NatToString(n / 10);
      ParseNatToString(n / 10);
    }
  }

  /** `str(n)` for any integer. */
  function IntToString(n: int): string {
    if n < 0 then "-" + NatToString(-n) else NatToString(n)
  }

  function Min(a: int, b: int): int {
    if a <= b then a else b
  }

  function Max(a: int, b: int): int {
    if a >= b then a else b
  }
}
