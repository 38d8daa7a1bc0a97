/** The HTML-tag tracking that the balance scan, the pair splitter and the
    `=` finder share: an `inHtmlTag` flag and an `htmlTagLevel` counter,
    updated on `<` and `>` and left alone by every other character. */
module Tags {
  import opened Text

  datatype TagState = TagState(inTag: bool, level: int)

  const Outside := TagState(false, 0)

  /** `<` enters a tag and deepens the level; `>` lowers the level and leaves
      the tag only when the level lands exactly on zero. */
  function TagStep(t: TagState, c: char): TagState {
    if c == '<' then TagState(true, t.level + 1)
    else if c == '>' then TagState(if t.level - 1 == 0 then false else t.inTag, t.level - 1)
    else t
  }

  /** The tag state after the first n characters of s. */
  function TagAt(s: string, n: nat): TagState
    requires n <= |s|
  {
    if n == 0 then Outside else TagStep(TagAt(s, n - 1), s[n - 1])
  }

  /** The level counts every `<` up and every `>` down, with no floor at zero. */
  lemma {:induction false} TagLevelIsBalance(s: string, n: nat)
    requires n <= |s|
    ensures TagAt(s, n).level == Count(s[..n], '<') - Count(s[..n], '>')
  {
    if n > 0 {
      TagLevelIsBalance(s, n - 1);
      assert s[..n][..n - 1] == s[..n - 1];
    }
  }

  /** The flag only ever goes up on a `<`: text without `<` is never in a tag. */
  lemma {:induction false} NoOpenNoTag(s: string, n: nat)
    requires n <= |s|
    requires forall k :: 0 <= k < n ==> s[k] != '<'
    ensures !TagAt(s, n).inTag
  {
    if n > 0 {
      NoOpenNoTag(s, n - 1);
    }
  }

  /** As written, a stray `>` drives the level below zero, and a `<` after it
      sets the flag at level zero, from where no `>` clears it again. */
  lemma StrayCloserKeepsTagOpen()
    ensures TagAt(">", 1) == TagState(false, -1)
    ensures TagAt("><", 2) == TagState(true, 0)
    ensures TagAt("><>", 3) == TagState(true, -1)
  {
  }
}
