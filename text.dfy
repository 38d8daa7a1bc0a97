/** Character classes and string helpers shared by every part of the parser.
    JavaScript's `trim` and the regular-expression class `\s` are modelled by
    one fixed whitespace predicate, IsSpace. */
module Text {

  /** The whitespace recognised by `trim` and `\s` in this model. */
  predicate IsSpace(c: char) {
    c == ' ' || c == '\t' || c == '\n' || c == '\r' || c == '\U{000B}' || c == '\U{000C}'
    || c == '\U{00A0}' || c == '\U{2028}' || c == '\U{2029}' || c == '\U{FEFF}'
  }

  /** `[a-zA-Z_$]` */
  predicate IsIdentStart(c: char) {
    ('a' <= c <= 'z') || ('A' <= c <= 'Z') || c == '_' || c == '$'
  }

  /** `[a-zA-Z0-9_$]` */
  predicate IsIdentPart(c: char) {
    IsIdentStart(c) || ('0' <= c <= '9')
  }

  /** The two quote characters the scanners know: `"` and `'`. */
  predicate IsQuote(c: char) {
    c == '"' || c == '\''
  }

  /** The scanners' test `prevChar !== '\\'`, negated: the character before
      position i is a backslash (at position 0 there is none). */
  predicate Escaped(s: string, i: nat)
    requires i < |s|
  {
    i > 0 && s[i - 1] == '\\'
  }

  /** s without its leading whitespace. */
  function TrimStart(s: string): (r: string)
    ensures |r| <= |s| && r == s[|s| - |r|..]
    ensures r == [] || !IsSpace(r[0])
    ensures forall i :: 0 <= i < |s| - |r| ==> IsSpace(s[i])
  {
    s[NextNonSpace(s, 0)..]
  }

  /** Where the run of whitespace that ends at j starts. */
  function SpaceRunStart(s: string, j: nat): (r: nat)
    requires j <= |s|
    ensures r <= j
    ensures forall k :: r <= k < j ==> IsSpace(s[k])
    ensures r == 0 || !IsSpace(s[r - 1])
    decreases j
  {
    if j == 0 || !IsSpace(s[j - 1]) then j else SpaceRunStart(s, j - 1)
  }

  /** SpaceRunStart is the only index with its two properties. */
  lemma SpaceRunStartIs(s: string, j: nat, r: nat)
    requires r <= j <= |s|
    requires forall k :: r <= k < j ==> IsSpace(s[k])
    requires r == 0 || !IsSpace(s[r - 1])
    ensures SpaceRunStart(s, j) == r
    decreases j
  {
    if r < j {
      SpaceRunStartIs(s, j - 1, r);
    }
  }

  /** s without its trailing whitespace. */
  function TrimEnd(s: string): (r: string)
    ensures |r| <= |s| && r == s[..|r|]
    ensures r == [] || !IsSpace(r[|r| - 1])
    ensures forall i :: |r| <= i < |s| ==> IsSpace(s[i])
  {
    s[..SpaceRunStart(s, |s|)]
  }

  /** JavaScript's `String.prototype.trim`. */
  function Trim(s: string): (r: string)
    ensures |r| <= |s|
    ensures |r| == 0 || (!IsSpace(r[0]) && !IsSpace(r[|r| - 1]))
    ensures NextNonSpace(s, 0) + |r| <= |s| && r == s[NextNonSpace(s, 0)..NextNonSpace(s, 0) + |r|]
    ensures forall k :: 0 <= k < NextNonSpace(s, 0) ==> IsSpace(s[k])
    ensures forall k :: NextNonSpace(s, 0) + |r| <= k < |s| ==> IsSpace(s[k])
  {
    var u := TrimStart(s);
    var r := TrimEnd(u);
    assert |r| == 0 || r[0] == u[0];
    assert u == s[NextNonSpace(s, 0)..];
    assert forall k :: NextNonSpace(s, 0) + |r| <= k < |s| ==> s[k] == u[k - NextNonSpace(s, 0)];
    r
  }

  /** Trimming keeps characters of the text only. */
  lemma TrimKeepsCharacters(s: string)
    ensures forall k :: 0 <= k < |Trim(s)| ==> Trim(s)[k] in s
  {
    var u := TrimStart(s);
    var a := |s| - |u|;
    assert Trim(s) == u[..|Trim(s)|];
    forall k | 0 <= k < |Trim(s)|
      ensures Trim(s)[k] in s
    {
      assert Trim(s)[k] == s[a + k];
    }
  }

  /** Text that does not trim away completely keeps what follows it when
      its leading whitespace goes. */
  lemma {:induction false} TrimStartAppend(a: string, b: string)
    requires |TrimStart(a)| > 0
    ensures TrimStart(a + b) == TrimStart(a) + b
  {
    assert (a + b)[0] == a[0];
    if IsSpace(a[0]) {
      assert (a + b)[1..] == a[1..] + b;
      TrimStartAppend(a[1..], b);
    }
  }

  /** Text that starts with a non-space character trims to something that
      starts with it. */
  lemma TrimKeepsHead(u: string)
    requires |u| > 0 && !IsSpace(u[0])
    ensures |Trim(u)| > 0 && Trim(u)[0] == u[0]
  {
    assert TrimStart(u) == u;
    var r := TrimEnd(u);
    assert r == u[..|r|];
  }

  /** What a text trims to starts where its leading whitespace ends. */
  lemma TrimHead(r: string)
    requires |Trim(r)| > 0
    ensures |TrimStart(r)| > 0 && Trim(r)[0] == TrimStart(r)[0]
  {
  }

  /** A non-space character appended to a text that does not trim away
      completely ends what the result trims to. */
  lemma TrimAppendNonSpace(r: string, c: char)
    requires |TrimStart(r)| > 0 && !IsSpace(c)
    ensures Trim(r + [c]) == TrimStart(r) + [c]
  {
    TrimStartAppend(r, [c]);
    var v := TrimStart(r) + [c];
    assert v[|v| - 1] == c;
    assert TrimEnd(v) == v;
  }

  /** Text with no whitespace at either end trims to itself. */
  lemma TrimOfTrimmed(s: string)
    requires s == [] || (!IsSpace(s[0]) && !IsSpace(s[|s| - 1]))
    ensures Trim(s) == s
  {
  }

  /** The first index at or after i whose character is not whitespace (|s| if none). */
  function NextNonSpace(s: string, i: nat): (r: nat)
    requires i <= |s|
    ensures i <= r <= |s|
    ensures forall k :: i <= k < r ==> IsSpace(s[k])
    ensures r == |s| || !IsSpace(s[r])
    decreases |s| - i
  {
    if i == |s| || !IsSpace(s[i]) then i else NextNonSpace(s, i + 1)
  }

  /** NextNonSpace is the only index with its two properties. */
  lemma NextNonSpaceIs(s: string, i: nat, j: nat)
    requires i <= j <= |s|
    requires forall k :: i <= k < j ==> IsSpace(s[k])
    requires j == |s| || !IsSpace(s[j])
    ensures NextNonSpace(s, i) == j
  {
  }

  /** The source's whitespace-skipping loops: `while (j < s.length && /\s/.test(s[j])) j++`. */
  method SkipSpaces(s: string, from: nat) returns (j: nat)
    requires from <= |s|
    ensures j == NextNonSpace(s, from)
  {
    j := from;
    while j < |s| && IsSpace(s[j])
      invariant from <= j <= |s|
      invariant forall k :: from <= k < j ==> IsSpace(s[k])
    {
      j := j + 1;
    }
    NextNonSpaceIs(s, from, j);
  }

  /** The end of the run of identifier characters that starts at i. */
  function IdentEnd(s: string, i: nat): (r: nat)
    requires i <= |s|
    ensures i <= r <= |s|
    ensures forall k :: i <= k < r ==> IsIdentPart(s[k])
    ensures r == |s| || !IsIdentPart(s[r])
    decreases |s| - i
  {
    if i == |s| || !IsIdentPart(s[i]) then i else IdentEnd(s, i + 1)
  }

  /** IdentEnd is the only index with its two properties. */
  lemma IdentEndIs(s: string, i: nat, k: nat)
    requires i <= k <= |s|
    requires forall m :: i <= m < k ==> IsIdentPart(s[m])
    requires k == |s| || !IsIdentPart(s[k])
    ensures IdentEnd(s, i) == k
    decreases k - i
  {
    if i < k {
      IdentEndIs(s, i + 1, k);
    }
  }

  /** IdentEnd looks only forward: a prefix shifts it and changes nothing else. */
  lemma IdentEndShift(u: string, t: string, q: nat)
    requires q <= |t|
    ensures IdentEnd(u + t, |u| + q) == |u| + IdentEnd(t, q)
  {
    var e := IdentEnd(t, q);
    assert forall m :: |u| + q <= m < |u| + e ==> (u + t)[m] == t[m - |u|];
    IdentEndIs(u + t, |u| + q, |u| + e);
  }

  /** NextNonSpace looks only forward: a prefix shifts it and changes nothing else. */
  lemma NextNonSpaceShift(u: string, t: string, q: nat)
    requires q <= |t|
    ensures NextNonSpace(u + t, |u| + q) == |u| + NextNonSpace(t, q)
  {
    var e := NextNonSpace(t, q);
    assert forall m :: |u| + q <= m < |u| + e ==> (u + t)[m] == t[m - |u|];
    NextNonSpaceIs(u + t, |u| + q, |u| + e);
  }

  /** The characters of s[i..] whose positions the mask keeps, in order. */
  function Selected(s: string, keep: seq<bool>, i: nat): string
    requires |keep| == |s| && i <= |s|
    decreases |s| - i
  {
    if i == |s| then "" else (if keep[i] then [s[i]] else "") + Selected(s, keep, i + 1)
  }

  /** Positions the mask drops contribute nothing. */
  lemma {:induction false} SelectedSkips(s: string, keep: seq<bool>, a: nat, b: nat)
    requires |keep| == |s| && a <= b <= |s|
    requires forall m :: a <= m < b ==> !keep[m]
    ensures Selected(s, keep, a) == Selected(s, keep, b)
    decreases b - a
  {
    if a < b {
      SelectedSkips(s, keep, a + 1, b);
      assert Selected(s, keep, a) == "" + Selected(s, keep, a + 1);
    }
  }

  /** The first index at or after i holding c (|s| if none). */
  function IndexFrom(s: string, c: char, i: nat): (r: nat)
    requires i <= |s|
    ensures i <= r <= |s|
    ensures forall k :: i <= k < r ==> s[k] != c
    ensures r == |s| || s[r] == c
    decreases |s| - i
  {
    if i == |s| || s[i] == c then i else IndexFrom(s, c, i + 1)
  }

  /** JavaScript's `lastIndexOf` for one character: -1 when c does not occur. */
  function LastIndexOf(s: string, c: char): (r: int)
    ensures -1 <= r < |s|
    ensures r == -1 <==> c !in s
    ensures r >= 0 ==> s[r] == c && forall k :: r < k < |s| ==> s[k] != c
  {
    if |s| == 0 then -1
    else if s[|s| - 1] == c then |s| - 1
    else LastIndexOf(s[..|s| - 1], c)
  }

  /** JavaScript's `Array.prototype.join`. */
  function Join(parts: seq<string>, sep: string): string {
    if |parts| == 0 then ""
    else if |parts| == 1 then parts[0]
    else parts[0] + sep + Join(parts[1..], sep)
  }

  lemma {:induction false} JoinAppend(parts: seq<string>, p: string, sep: string)
    ensures Join(parts + [p], sep) == if parts == [] then p else Join(parts, sep) + sep + p
  {
    if |parts| > 1 {
      assert (parts + [p])[1..] == parts[1..] + [p];
      JoinAppend(parts[1..], p, sep);
    } else if |parts| == 1 {
      assert (parts + [p])[1..] == [p];
    }
  }

  /** Joining two non-empty lists puts one separator between their joins. */
  lemma {:induction false} JoinConcat(a: seq<string>, b: seq<string>, sep: string)
    requires a != [] && b != []
    ensures Join(a + b, sep) == Join(a, sep) + sep + Join(b, sep)
  {
    if |a| == 1 {
      assert (a + b)[1..] == b;
    } else {
      assert (a + b)[1..] == a[1..] + b;
      JoinConcat(a[1..], b, sep);
    }
  }

  /** JavaScript's `split` on one character. */
  function Split(s: string, c: char): (r: seq<string>)
    ensures |r| >= 1
    ensures forall k :: 0 <= k < |r| ==> c !in r[k]
    decreases |s|
  {
    var j := IndexFrom(s, c, 0);
    if j == |s| then [s] else [s[..j]] + Split(s[j + 1..], c)
  }

  /** Splitting and joining on the same character gives the text back. */
  lemma {:induction false} JoinSplit(s: string, c: char)
    ensures Join(Split(s, c), [c]) == s
    decreases |s|
  {
    var j := IndexFrom(s, c, 0);
    if j < |s| {
      JoinSplit(s[j + 1..], c);
      assert s == s[..j] + [c] + s[j + 1..];
    }
  }

  /** Splitting a join of parts free of the separator gives the parts back. */
  lemma {:induction false} SplitJoin(parts: seq<string>, c: char)
    requires parts != []
    requires forall k :: 0 <= k < |parts| ==> c !in parts[k]
    ensures Split(Join(parts, [c]), c) == parts
    decreases |parts|
  {
    var s := Join(parts, [c]);
    if |parts| == 1 {
      assert IndexFrom(s, c, 0) == |s|;
    } else {
      var rest := Join(parts[1..], [c]);
      assert s == parts[0] + [c] + rest;
      assert s[|parts[0]|] == c;
      assert IndexFrom(s, c, 0) == |parts[0]|;
      assert s[..|parts[0]|] == parts[0];
      assert s[|parts[0]| + 1..] == rest;
      SplitJoin(parts[1..], c);
      assert Split(s, c) == [s[..|parts[0]|]] + Split(rest, c);
    }
  }

  /** The characters of s that satisfy p, in order. */
  function Keep(s: string, p: char -> bool): string {
    if |s| == 0 then [] else (if p(s[0]) then [s[0]] else []) + Keep(s[1..], p)
  }

  lemma {:induction false} KeepConcat(a: string, b: string, p: char -> bool)
    ensures Keep(a + b, p) == Keep(a, p) + Keep(b, p)
  {
    if a != [] {
      assert (a + b)[0] == a[0];
      assert (a + b)[1..] == a[1..] + b;
      KeepConcat(a[1..], b, p);
      assert Keep(a + b, p) == (if p(a[0]) then [a[0]] else []) + Keep(a[1..] + b, p);
    } else {
      assert a + b == b;
    }
  }

  lemma {:induction false} KeepNone(s: string, p: char -> bool)
    requires forall k :: 0 <= k < |s| ==> !p(s[k])
    ensures Keep(s, p) == []
  {
    if s != [] {
      KeepNone(s[1..], p);
    }
  }

  lemma KeepCons(c: char, t: string, p: char -> bool)
    ensures Keep([c] + t, p) == (if p(c) then [c] else []) + Keep(t, p)
  {
    assert ([c] + t)[1..] == t;
  }

  /** A prefix with nothing to keep is dropped. */
  lemma KeepSkip(a: string, b: string, p: char -> bool)
    requires forall k :: 0 <= k < |a| ==> !p(a[k])
    ensures Keep(a + b, p) == Keep(b, p)
  {
    KeepConcat(a, b, p);
    KeepNone(a, p);
  }

  lemma AppendAssoc(a: string, b: string, c: string)
    ensures (a + b) + c == a + (b + c)
  {
  }

  lemma ConsSlice(s: string, a: nat, b: nat)
    requires a < b <= |s|
    ensures [s[a]] + s[a + 1..b] == s[a..b]
  {
  }

  lemma SliceSnoc(s: string, a: nat, b: nat)
    requires a < b <= |s|
    ensures s[a..b] == s[a..b - 1] + [s[b - 1]]
  {
  }

  lemma PrefixSplit(t: string, i: nat, j: nat)
    requires i <= j <= |t|
    ensures t[..j] == t[..i] + t[i..j]
  {
  }

  lemma SliceOfSlice(t: string, i: nat, j: nat)
    requires i <= j <= |t|
    ensures t[i..][..j - i] == t[i..j]
  {
  }

  /** s[i..] cut at l, with the character at l on its own. */
  lemma SliceAt(s: string, i: nat, l: nat)
    requires i <= l < |s|
    ensures s[i..] == s[i..l] + ([s[l]] + s[l + 1..])
  {
    assert s[i..] == s[i..l] + s[l..];
    assert s[l..] == [s[l]] + s[l + 1..];
  }

  /** Dropping a prefix with nothing to keep in front of one kept-or-not character. */
  lemma KeepAfterSkip(pre: string, c: char, tail: string, rest: string, p: char -> bool)
    requires forall k :: 0 <= k < |pre| ==> !p(pre[k])
    requires Keep(rest, p) == Keep(tail, p)
    ensures Keep([c] + rest, p) == Keep(pre + ([c] + tail), p)
  {
    KeepSkip(pre, [c] + tail, p);
    KeepCons(c, tail, p);
    KeepCons(c, rest, p);
  }

  /** The number of occurrences of c in s. */
  function Count(s: string, c: char): nat {
    if |s| == 0 then 0 else Count(s[..|s| - 1], c) + (if s[|s| - 1] == c then 1 else 0)
  }

  /** The decimal text of a natural number, as `${index}` prints it. */
  function NatToString(n: nat): (r: string)
    ensures |r| >= 1
    ensures forall k :: 0 <= k < |r| ==> '0' <= r[k] <= '9'
  {
    var d := ['0' + (n % 10) as char];
    if n < 10 then d else NatToString(n / 10) + d
  }
}
