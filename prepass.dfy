/** The passes `convertJsObjectToJson` makes before its balance scan: the
    removal of a declaration prefix and of a statement suffix, each a regular
    expression replaced here by an explicit scan, and the cut to the first
    `{` or `[`. */
module Prepass {
  import opened Text
  import opened Json

  predicate StartsWith(s: string, p: string) {
    |p| <= |s| && s[..|p|] == p
  }

  /** Where `^(var|let|const|function|return|export\s+default)` ends when it
      matches at the start of s. */
  function KeywordEnd(s: string): (r: Option<nat>)
    ensures r.Some? ==> r.value <= |s|
  {
    if StartsWith(s, "var") then Some(3)
    else if StartsWith(s, "let") then Some(3)
    else if StartsWith(s, "const") then Some(5)
    else if StartsWith(s, "function") then Some(8)
    else if StartsWith(s, "return") then Some(6)
    else if StartsWith(s, "export") then
      var w := NextNonSpace(s, 6);
      if w > 6 && StartsWith(s[w..], "default") then Some(w + 7) else None
    else None
  }

  /** The last index in [lo, hi) holding `=`. */
  function LastEqualsIn(s: string, lo: nat, hi: nat): (r: Option<nat>)
    requires lo <= hi <= |s|
    ensures r.Some? ==> lo <= r.value < hi && s[r.value] == '='
    ensures forall k :: (if r.Some? then r.value + 1 else lo) <= k < hi ==> s[k] != '='
    decreases hi - lo
  {
    if lo == hi then None
    else if s[hi - 1] == '=' then Some(hi - 1)
    else LastEqualsIn(s, lo, hi - 1)
  }

  /** The index of the `=` that ends a match of
      `^(var|...|export\s+default)\s+[^{]*=`, if there is one: after the
      keyword at p at least one whitespace character, then the greedy `[^{]*`,
      which backs off to the last `=` before the first `{` after p. */
  function DeclarationEnd(s: string): (r: Option<nat>)
    ensures r.Some? ==> KeywordEnd(s).Some? && KeywordEnd(s).value < r.value < |s|
    ensures r.Some? ==> IsSpace(s[KeywordEnd(s).value]) && s[r.value] == '='
    ensures r.Some? ==> forall k :: KeywordEnd(s).value <= k < r.value ==> s[k] != '{'
    ensures r.Some? ==> forall k :: r.value < k < IndexFrom(s, '{', KeywordEnd(s).value) ==> s[k] != '='
    ensures r.None? && KeywordEnd(s).Some? && KeywordEnd(s).value < |s| && IsSpace(s[KeywordEnd(s).value]) ==>
      forall k :: KeywordEnd(s).value < k < IndexFrom(s, '{', KeywordEnd(s).value) ==> s[k] != '='
  {
    match KeywordEnd(s)
    case None => None
    case Some(p) =>
      if p < |s| && IsSpace(s[p]) then
        LastEqualsIn(s, p + 1, IndexFrom(s, '{', p))
      else None
  }

  /** `str.replace(/^(var|let|const|function|return|export\s+default)\s+[^{]*=/, '')` */
  function StripDeclaration(s: string): (r: string)
    ensures DeclarationEnd(s).Some? ==> r == s[DeclarationEnd(s).value + 1..]
    ensures DeclarationEnd(s).None? ==> r == s
  {
    match DeclarationEnd(s)
    case None => s
    case Some(e) => s[e + 1..]
  }

  /** The leftmost index at or after i where `;[^}]*$` matches: a `;` with no
      `}` anywhere after it. */
  function SuffixFrom(s: string, i: nat): (r: Option<nat>)
    requires i <= |s|
    ensures r.Some? ==> i <= r.value < |s| && s[r.value] == ';' && '}' !in s[r.value + 1..]
    ensures forall j :: i <= j < (if r.Some? then r.value else |s|) && s[j] == ';' ==> '}' in s[j + 1..]
    decreases |s| - i
  {
    if i == |s| then None
    else if s[i] == ';' && '}' !in s[i + 1..] then Some(i)
    else SuffixFrom(s, i + 1)
  }

  /** `str.replace(/;[^}]*$/, '')`: the text loses the leftmost `;` that has no
      `}` after it, and everything after that `;`. */
  function StripStatementSuffix(s: string): (r: string)
    ensures |r| <= |s| && r == s[..|r|]
    ensures SuffixFrom(s, 0).None? ==> r == s
    ensures SuffixFrom(s, 0).Some? ==> r == s[..SuffixFrom(s, 0).value]
  {
    match SuffixFrom(s, 0)
    case None => s
    case Some(i) => s[..i]
  }

  /** After the suffix is stripped, every `;` that is left has a `}` somewhere
      after it. */
  lemma SemicolonsPrecedeABrace(s: string)
    ensures var r := StripStatementSuffix(s);
      forall j :: 0 <= j < |r| && r[j] == ';' ==> '}' in r[j + 1..]
  {
    var r := StripStatementSuffix(s);
    match SuffixFrom(s, 0)
    case None =>
    case Some(i) =>
      forall j | 0 <= j < |r| && r[j] == ';'
        ensures '}' in r[j + 1..]
      {
        assert s[j] == ';';
        forall k | i < k < |s|
          ensures s[k] != '}'
        {
          assert s[k] == s[i + 1..][k - i - 1];
        }
        var m :| j + 1 <= m < |s| && s[m] == '}';
        assert m < i;
        assert r[j + 1..][m - j - 1] == '}';
      }
  }

  predicate IsOpener(c: char) {
    c == '{' || c == '['
  }

  /** The first index at or after i holding `{` or `[`. */
  function FirstOpener(s: string, i: nat): (r: Option<nat>)
    requires i <= |s|
    ensures r.Some? ==> i <= r.value < |s| && IsOpener(s[r.value])
    ensures forall k :: i <= k < (if r.Some? then r.value else |s|) ==> !IsOpener(s[k])
    decreases |s| - i
  {
    if i == |s| then None
    else if IsOpener(s[i]) then Some(i)
    else FirstOpener(s, i + 1)
  }

  /** `str.match(/[\{\[]/)` and the cut at `str.indexOf(startMatch[0])`:
      None when no `{` or `[` occurs, otherwise the text from the first one on. */
  function FromFirstOpener(s: string): (r: Option<string>)
    ensures r.None? <==> forall k :: 0 <= k < |s| ==> !IsOpener(s[k])
    ensures r.Some? ==> 0 < |r.value| <= |s| && IsOpener(r.value[0]) && r.value == s[|s| - |r.value|..]
    ensures r.Some? ==> forall k :: 0 <= k < |s| - |r.value| ==> !IsOpener(s[k])
  {
    match FirstOpener(s, 0)
    case None => None
    case Some(k) => Some(s[k..])
  }

  /** The declaration prefix goes only up to an `=` that stands before the
      first `{`, so a `{` found after it is the first `{` of the text. */
  lemma DeclarationKeepsFirstBrace(s: string)
    requires DeclarationEnd(s).Some?
    ensures forall k :: 0 <= k <= DeclarationEnd(s).value ==> s[k] != '{' || k < KeywordEnd(s).value
  {
  }

  /** A text starting with a character that no keyword starts with has no
      declaration for the first pre-pass to strip. */
  lemma OpenerStartsNoKeyword(s: string)
    requires |s| > 0 && !IsIdentStart(s[0])
    ensures KeywordEnd(s).None? && StripDeclaration(s) == s
  {
    forall p | StartsWith(s, p) && |p| > 0
      ensures s[0] == p[0]
    {
      assert s[..|p|][0] == s[0];
    }
  }

  /** Example: `var x = {` loses `var x =`. */
  lemma DeclarationExample()
    ensures StripDeclaration("var x = {") == " {"
  {
    var s := "var x = {";
    assert StartsWith(s, "var");
    assert KeywordEnd(s) == Some(3);
    assert IndexFrom(s, '{', 3) == 8;
    assert LastEqualsIn(s, 4, 8) == Some(6);
    assert s[7..] == " {";
  }

  /** Example: a keyword that runs on into an identifier is no declaration. */
  lemma NoKeywordExample()
    ensures StripDeclaration("varx = {") == "varx = {"
  {
    var s := "varx = {";
    assert StartsWith(s, "var");
    assert KeywordEnd(s) == Some(3);
  }

  /** Example: `{a};x` loses `;x`, while `{a;b}` keeps its `;`. */
  lemma SuffixExamples()
    ensures StripStatementSuffix("{a};x") == "{a}"
    ensures StripStatementSuffix("{a;b}") == "{a;b}"
  {
    assert "{a};x"[4..] == "x";
    assert SuffixFrom("{a};x", 0) == Some(3);
    assert "{a;b}"[3..] == "b}";
    assert "b}"[1] == '}';
    assert SuffixFrom("{a;b}", 0) == None;
  }
}
