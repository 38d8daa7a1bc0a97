/** `buildQueryString` of tab.js and the URL join of
    `convertRequestToUrlWithQuery`. The decoded value is walked in the order
    in which `for...in` enumerates its keys; `encodeURIComponent` is the
    parameter `enc`. */
module Query {
  import opened Text
  import opened Json

  /** `encodeURIComponent`, a percent-encoder over text. */
  type Encoder = string -> string

  /** `prefix ? `${prefix}[${key}]` : key` */
  function FullKey(prefix: string, key: string): string {
    if |prefix| > 0 then prefix + "[" + key + "]" else key
  }

  /** `${fullKey}[${index}]` */
  function ItemKey(key: string, index: nat): string {
    key + "[" + NatToString(index) + "]"
  }

  /** `value && typeof value === 'object'`: a decoded object or array. */
  predicate IsComposite(v: JValue) {
    v.JObject? || v.JArray?
  }

  /** The text `encodeURIComponent` gives a primitive value: `null`,
      `true`/`false`, the number's own text, the string itself. */
  function PrimitiveText(v: JValue): string
    requires !IsComposite(v)
  {
    match v
    case JNull => "null"
    case JBool(b) => if b then "true" else "false"
    case JNumber(t) => t
    case JString(s) => s
  }

  /** One `key=value` piece. */
  function Leaf(enc: Encoder, key: string, text: string): string {
    enc(key) + "=" + enc(text)
  }

  /** `buildQueryString(obj, prefix)`: the pieces joined by `&`. */
  function QueryString(enc: Encoder, v: JValue, prefix: string): string
    decreases v, 3
  {
    Join(Pieces(enc, v, prefix), "&")
  }

  /** The pieces of `for (const key in obj)`: the members of an object, the
      indices of an array, the character positions of a string, and nothing
      for `null`, a boolean or a number. */
  function Pieces(enc: Encoder, v: JValue, prefix: string): seq<string>
    decreases v, 2
  {
    match v
    case JObject(m) => MembersPieces(enc, m, prefix, |m|)
    case JArray(items) => IndexPieces(enc, items, prefix, |items|)
    case JString(s) => CharPieces(enc, s, prefix, |s|)
    case _ => []
  }

  /** The pieces of the first n members of an object. */
  function MembersPieces(enc: Encoder, m: seq<(string, JValue)>, prefix: string, n: nat): seq<string>
    requires n <= |m|
    decreases JObject(m), 1, n
  {
    if n == 0 then []
    else
      assert m[n - 1].1 < m[n - 1];
      MembersPieces(enc, m, prefix, n - 1) + MemberPieces(enc, m[n - 1].0, m[n - 1].1, prefix)
  }

  /** The members of an array enumerated by `for...in`: key "0", "1", ... */
  function IndexPieces(enc: Encoder, items: seq<JValue>, prefix: string, n: nat): seq<string>
    requires n <= |items|
    decreases JArray(items), 1, n
  {
    if n == 0 then []
    else IndexPieces(enc, items, prefix, n - 1) + MemberPieces(enc, NatToString(n - 1), items[n - 1], prefix)
  }

  /** A string enumerated by `for...in`: one leaf per character. */
  function CharPieces(enc: Encoder, s: string, prefix: string, n: nat): seq<string>
    requires n <= |s|
  {
    if n == 0 then []
    else CharPieces(enc, s, prefix, n - 1) + [Leaf(enc, FullKey(prefix, NatToString(n - 1)), [s[n - 1]])]
  }

  /** The pieces one key contributes: a nested object's whole query string,
      one piece per array item, or a leaf. */
  function MemberPieces(enc: Encoder, key: string, value: JValue, prefix: string): seq<string>
    decreases value, 4
  {
    var fullKey := FullKey(prefix, key);
    match value
    case JObject(_) => [QueryString(enc, value, fullKey)]
    case JArray(items) => ItemPieces(enc, items, fullKey, |items|)
    case _ => [Leaf(enc, fullKey, PrimitiveText(value))]
  }

  /** `value.forEach((item, index) => ...)` over the first n items. */
  function ItemPieces(enc: Encoder, items: seq<JValue>, key: string, n: nat): seq<string>
    requires n <= |items|
    decreases JArray(items), 1, n
  {
    if n == 0 then []
    else ItemPieces(enc, items, key, n - 1) + [ItemPiece(enc, items[n - 1], ItemKey(key, n - 1))]
  }

  function ItemPiece(enc: Encoder, item: JValue, arrayKey: string): string
    decreases item, 4
  {
    if IsComposite(item) then QueryString(enc, item, arrayKey) else Leaf(enc, arrayKey, PrimitiveText(item))
  }

  /** The key whose own member makes `obj.hasOwnProperty(key)` throw: a
      decoded value is never a function, so the call fails with a TypeError. */
  const ShadowedKey := "hasOwnProperty"

  /** The message of that TypeError, in the wording of Chrome's V8 engine. */
  const NotAFunctionMessage := "obj.hasOwnProperty is not a function"

  /** The object has an own member named `hasOwnProperty`. */
  predicate Shadows(m: seq<(string, JValue)>) {
    exists k :: 0 <= k < |m| && m[k].0 == ShadowedKey
  }

  /** `buildQueryString(obj, prefix)` throws: some object it walks through,
      `obj` itself or one nested in it, has an own `hasOwnProperty` member. */
  predicate Throws(v: JValue)
    decreases v, 2
  {
    match v
    case JObject(m) => Shadows(m) || MembersThrow(m, |m|)
    case JArray(items) => IndexThrows(items, |items|)
    case _ => false
  }

  predicate MembersThrow(m: seq<(string, JValue)>, n: nat)
    requires n <= |m|
    decreases JObject(m), 1, n
  {
    if n == 0 then false
    else
      assert m[n - 1].1 < m[n - 1];
      MembersThrow(m, n - 1) || MemberThrows(m[n - 1].1)
  }

  predicate IndexThrows(items: seq<JValue>, n: nat)
    requires n <= |items|
    decreases JArray(items), 1, n
  {
    n > 0 && (IndexThrows(items, n - 1) || MemberThrows(items[n - 1]))
  }

  /** What one key's value throws: a nested object, or an array item that is
      an object or an array, walked in turn. */
  predicate MemberThrows(value: JValue)
    decreases value, 4
  {
    match value
    case JObject(_) => Throws(value)
    case JArray(items) => ItemsThrow(items, |items|)
    case _ => false
  }

  predicate ItemsThrow(items: seq<JValue>, n: nat)
    requires n <= |items|
    decreases JArray(items), 1, n
  {
    n > 0 && (ItemsThrow(items, n - 1) || (IsComposite(items[n - 1]) && Throws(items[n - 1])))
  }

  /** A throw among the first i members, indices or items is a throw among
      the first n >= i. */
  lemma {:induction false} MembersThrowGrow(m: seq<(string, JValue)>, i: nat, n: nat)
    requires i <= n <= |m| && MembersThrow(m, i)
    ensures MembersThrow(m, n)
    decreases n - i
  {
    if i < n {
      MembersThrowGrow(m, i, n - 1);
    }
  }

  lemma {:induction false} IndexThrowsGrow(items: seq<JValue>, i: nat, n: nat)
    requires i <= n <= |items| && IndexThrows(items, i)
    ensures IndexThrows(items, n)
    decreases n - i
  {
    if i < n {
      IndexThrowsGrow(items, i, n - 1);
    }
  }

  lemma {:induction false} ItemsThrowGrow(items: seq<JValue>, i: nat, n: nat)
    requires i <= n <= |items| && ItemsThrow(items, i)
    ensures ItemsThrow(items, n)
    decreases n - i
  {
    if i < n {
      ItemsThrowGrow(items, i, n - 1);
    }
  }

  /** `buildQueryString(obj, prefix)`: one pass over the keys of `obj`,
      pushing each key's pieces, then `parts.join('&')`; the TypeError of
      `obj.hasOwnProperty(key)` on an object that has its own member of that
      name comes back as the error. */
  method BuildQueryString(enc: Encoder, obj: JValue, prefix: string) returns (r: Result<string>)
    ensures r == if Throws(obj) then Err(NotAFunctionMessage) else Ok(QueryString(enc, obj, prefix))
    decreases obj, 3
  {
    var parts: seq<string> := [];
    match obj {
      case JObject(m) =>
        for i := 0 to |m|
          invariant !MembersThrow(m, i) && parts == MembersPieces(enc, m, prefix, i)
          invariant i > 0 ==> !Shadows(m)
        {
          if Shadows(m) {
            return Err(NotAFunctionMessage);
          }
          assert m[i].1 < m[i];
          var pushed := PushMember(enc, m[i].0, m[i].1, prefix);
          if pushed.Err? {
            MembersThrowGrow(m, i + 1, |m|);
            return Err(pushed.msg);
          }
          parts := parts + pushed.value;
        }
      case JArray(items) =>
        for i := 0 to |items|
          invariant !IndexThrows(items, i) && parts == IndexPieces(enc, items, prefix, i)
        {
          var pushed := PushMember(enc, NatToString(i), items[i], prefix);
          if pushed.Err? {
            IndexThrowsGrow(items, i + 1, |items|);
            return Err(pushed.msg);
          }
          parts := parts + pushed.value;
        }
      case JString(str) =>
        for i := 0 to |str|
          invariant parts == CharPieces(enc, str, prefix, i)
        {
          parts := parts + [Leaf(enc, FullKey(prefix, NatToString(i)), [str[i]])];
        }
      case _ =>
    }
    r := Ok(Join(parts, "&"));
  }

  /** The body of the key loop: what one key pushes onto `parts`, or the
      error a nested call throws. */
  method PushMember(enc: Encoder, key: string, value: JValue, prefix: string) returns (pushed: Result<seq<string>>)
    ensures pushed == if MemberThrows(value) then Err(NotAFunctionMessage) else Ok(MemberPieces(enc, key, value, prefix))
    decreases value, 4
  {
    var fullKey := FullKey(prefix, key);
    if value.JObject? {
      var nested := BuildQueryString(enc, value, fullKey);
      if nested.Err? {
        return Err(nested.msg);
      }
      pushed := Ok([nested.value]);
    } else if value.JArray? {
      var parts: seq<string> := [];
      var items := value.items;
      for index := 0 to |items|
        invariant !ItemsThrow(items, index) && parts == ItemPieces(enc, items, fullKey, index)
      {
        var item := items[index];
        var arrayKey := ItemKey(fullKey, index);
        if IsComposite(item) {
          var nested := BuildQueryString(enc, item, arrayKey);
          if nested.Err? {
            ItemsThrowGrow(items, index + 1, |items|);
            return Err(nested.msg);
          }
          parts := parts + [nested.value];
        } else {
          parts := parts + [Leaf(enc, arrayKey, PrimitiveText(item))];
        }
      }
      pushed := Ok(parts);
    } else {
      pushed := Ok([Leaf(enc, fullKey, PrimitiveText(value))]);
    }
  }

  /** An object with an own `hasOwnProperty` member makes the walk throw,
      wherever it sits: at the top, or as the value of a key. */
  lemma ShadowingMemberThrows(key: string, x: JValue, rest: seq<(string, JValue)>)
    ensures Throws(JObject([(ShadowedKey, x)] + rest))
    ensures Throws(JObject([(key, JObject([(ShadowedKey, x)]))]))
  {
    var m := [(ShadowedKey, x)] + rest;
    assert m[0].0 == ShadowedKey;
    var inner := JObject([(ShadowedKey, x)]);
    assert [(ShadowedKey, x)][0].0 == ShadowedKey;
    assert Throws(inner) && MemberThrows(inner);
    var outer := [(key, inner)];
    assert outer[0].1 == inner;
    assert MembersThrow(outer, 1);
  }

  /** A reference definition of the query string, flat instead of nested:
      the list of leaf fields, each with its full path, where a nested
      object with no pieces of its own stands as one blank field. */
  datatype Field = Field(path: string, text: string) | Blank

  function Fields(v: JValue, prefix: string): seq<Field>
    decreases v, 2
  {
    match v
    case JObject(m) => MembersFields(m, prefix, |m|)
    case JArray(items) => IndexFields(items, prefix, |items|)
    case JString(s) => CharFields(s, prefix, |s|)
    case _ => []
  }

  function MembersFields(m: seq<(string, JValue)>, prefix: string, n: nat): seq<Field>
    requires n <= |m|
    decreases JObject(m), 1, n
  {
    if n == 0 then []
    else
      assert m[n - 1].1 < m[n - 1];
      MembersFields(m, prefix, n - 1) + MemberFields(m[n - 1].0, m[n - 1].1, prefix)
  }

  function IndexFields(items: seq<JValue>, prefix: string, n: nat): seq<Field>
    requires n <= |items|
    decreases JArray(items), 1, n
  {
    if n == 0 then []
    else IndexFields(items, prefix, n - 1) + MemberFields(NatToString(n - 1), items[n - 1], prefix)
  }

  function CharFields(s: string, prefix: string, n: nat): seq<Field>
    requires n <= |s|
  {
    if n == 0 then []
    else CharFields(s, prefix, n - 1) + [Field(FullKey(prefix, NatToString(n - 1)), [s[n - 1]])]
  }

  function MemberFields(key: string, value: JValue, prefix: string): seq<Field>
    decreases value, 4
  {
    var fullKey := FullKey(prefix, key);
    match value
    case JObject(_) => NestedFields(value, fullKey)
    case JArray(items) => ItemFields(items, fullKey, |items|)
    case _ => [Field(fullKey, PrimitiveText(value))]
  }

  /** The fields of a nested object or array, spliced in place. */
  function NestedFields(v: JValue, path: string): seq<Field>
    decreases v, 3
  {
    var fs := Fields(v, path);
    if |fs| == 0 then [Blank] else fs
  }

  function ItemFields(items: seq<JValue>, key: string, n: nat): seq<Field>
    requires n <= |items|
    decreases JArray(items), 1, n
  {
    if n == 0 then []
    else
      ItemFields(items, key, n - 1) + ItemFieldsOf(items[n - 1], ItemKey(key, n - 1))
  }

  function ItemFieldsOf(item: JValue, arrayKey: string): seq<Field>
    decreases item, 4
  {
    if IsComposite(item) then NestedFields(item, arrayKey) else [Field(arrayKey, PrimitiveText(item))]
  }

  /** A field as a piece of text. */
  function Render(enc: Encoder, f: Field): string {
    match f
    case Field(path, text) => Leaf(enc, path, text)
    case Blank => ""
  }

  function RenderAll(enc: Encoder, fs: seq<Field>): (r: seq<string>)
    ensures |r| == |fs|
  {
    if |fs| == 0 then [] else RenderAll(enc, fs[..|fs| - 1]) + [Render(enc, fs[|fs| - 1])]
  }

  lemma {:induction false} RenderAllAppend(enc: Encoder, a: seq<Field>, b: seq<Field>)
    ensures RenderAll(enc, a + b) == RenderAll(enc, a) + RenderAll(enc, b)
    decreases |b|
  {
    if |b| == 0 {
      assert a + b == a;
    } else {
      RenderAllAppend(enc, a, b[..|b| - 1]);
      assert (a + b)[..|a + b| - 1] == a + b[..|b| - 1];
    }
  }

  /** Two lists of pieces that join to the same text and are empty together
      still do so after the same right-hand extension. */
  lemma JoinExtend(p: seq<string>, q: seq<string>, p2: seq<string>, q2: seq<string>)
    requires Join(p, "&") == Join(q, "&") && (|p| == 0 <==> |q| == 0)
    requires Join(p2, "&") == Join(q2, "&") && (|p2| == 0 <==> |q2| == 0)
    ensures Join(p + p2, "&") == Join(q + q2, "&") && (|p + p2| == 0 <==> |q + q2| == 0)
  {
    if |p| == 0 {
      EmptyLeft(p, p2);
      EmptyLeft(q, q2);
    } else if |p2| == 0 {
      EmptyRight(p, p2);
      EmptyRight(q, q2);
    } else {
      JoinConcat(p, p2, "&");
      JoinConcat(q, q2, "&");
    }
  }

  lemma EmptyLeft(p: seq<string>, p2: seq<string>)
    requires |p| == 0
    ensures p + p2 == p2
  {
  }

  lemma EmptyRight(p: seq<string>, p2: seq<string>)
    requires |p2| == 0
    ensures p + p2 == p
  {
  }

  /** The query string is the flat list of fields, each as `enc(path)=enc(text)`
      or blank, joined by `&`; there are no pieces exactly when there are no
      fields. */
  lemma {:induction false} QueryStringIsFields(enc: Encoder, v: JValue, prefix: string)
    ensures QueryString(enc, v, prefix) == Join(RenderAll(enc, Fields(v, prefix)), "&")
    ensures |Pieces(enc, v, prefix)| == 0 <==> |Fields(v, prefix)| == 0
    decreases v, 2
  {
    match v
    case JObject(m) => MembersAreFields(enc, m, prefix, |m|);
    case JArray(items) => IndexAreFields(enc, items, prefix, |items|);
    case JString(s) => CharsAreFields(enc, s, prefix, |s|);
    case _ =>
  }

  lemma {:induction false} MembersAreFields(enc: Encoder, m: seq<(string, JValue)>, prefix: string, n: nat)
    requires n <= |m|
    ensures Join(MembersPieces(enc, m, prefix, n), "&") == Join(RenderAll(enc, MembersFields(m, prefix, n)), "&")
    ensures |MembersPieces(enc, m, prefix, n)| == 0 <==> |MembersFields(m, prefix, n)| == 0
    decreases JObject(m), 1, n
  {
    if n > 0 {
      assert m[n - 1].1 < m[n - 1];
      MembersAreFields(enc, m, prefix, n - 1);
      MemberIsFields(enc, m[n - 1].0, m[n - 1].1, prefix);
      RenderAllAppend(enc, MembersFields(m, prefix, n - 1), MemberFields(m[n - 1].0, m[n - 1].1, prefix));
      JoinExtend(MembersPieces(enc, m, prefix, n - 1), RenderAll(enc, MembersFields(m, prefix, n - 1)),
                 MemberPieces(enc, m[n - 1].0, m[n - 1].1, prefix), RenderAll(enc, MemberFields(m[n - 1].0, m[n - 1].1, prefix)));
    }
  }

  lemma {:induction false} IndexAreFields(enc: Encoder, items: seq<JValue>, prefix: string, n: nat)
    requires n <= |items|
    ensures Join(IndexPieces(enc, items, prefix, n), "&") == Join(RenderAll(enc, IndexFields(items, prefix, n)), "&")
    ensures |IndexPieces(enc, items, prefix, n)| == 0 <==> |IndexFields(items, prefix, n)| == 0
    decreases JArray(items), 1, n
  {
    if n > 0 {
      IndexAreFields(enc, items, prefix, n - 1);
      MemberIsFields(enc, NatToString(n - 1), items[n - 1], prefix);
      RenderAllAppend(enc, IndexFields(items, prefix, n - 1), MemberFields(NatToString(n - 1), items[n - 1], prefix));
      JoinExtend(IndexPieces(enc, items, prefix, n - 1), RenderAll(enc, IndexFields(items, prefix, n - 1)),
                 MemberPieces(enc, NatToString(n - 1), items[n - 1], prefix),
                 RenderAll(enc, MemberFields(NatToString(n - 1), items[n - 1], prefix)));
    }
  }

  lemma {:induction false} CharsAreFields(enc: Encoder, s: string, prefix: string, n: nat)
    requires n <= |s|
    ensures CharPieces(enc, s, prefix, n) == RenderAll(enc, CharFields(s, prefix, n))
  {
    if n > 0 {
      CharsAreFields(enc, s, prefix, n - 1);
      RenderAllAppend(enc, CharFields(s, prefix, n - 1), [Field(FullKey(prefix, NatToString(n - 1)), [s[n - 1]])]);
    }
  }

  lemma {:induction false} MemberIsFields(enc: Encoder, key: string, value: JValue, prefix: string)
    ensures Join(MemberPieces(enc, key, value, prefix), "&") == Join(RenderAll(enc, MemberFields(key, value, prefix)), "&")
    ensures |MemberPieces(enc, key, value, prefix)| == 0 <==> |MemberFields(key, value, prefix)| == 0
    decreases value, 4
  {
    var fullKey := FullKey(prefix, key);
    match value
    case JObject(_) => NestedIsFields(enc, value, fullKey);
    case JArray(items) => ItemsAreFields(enc, items, fullKey, |items|);
    case _ =>
  }

  lemma {:induction false} NestedIsFields(enc: Encoder, v: JValue, path: string)
    ensures QueryString(enc, v, path) == Join(RenderAll(enc, NestedFields(v, path)), "&")
    decreases v, 3
  {
    QueryStringIsFields(enc, v, path);
  }

  lemma {:induction false} ItemsAreFields(enc: Encoder, items: seq<JValue>, key: string, n: nat)
    requires n <= |items|
    ensures Join(ItemPieces(enc, items, key, n), "&") == Join(RenderAll(enc, ItemFields(items, key, n)), "&")
    ensures |ItemPieces(enc, items, key, n)| == 0 <==> |ItemFields(items, key, n)| == 0
    decreases JArray(items), 1, n
  {
    if n > 0 {
      var item := items[n - 1];
      var arrayKey := ItemKey(key, n - 1);
      ItemsAreFields(enc, items, key, n - 1);
      ItemIsFields(enc, item, arrayKey);
      RenderAllAppend(enc, ItemFields(items, key, n - 1), ItemFieldsOf(item, arrayKey));
      JoinExtend(ItemPieces(enc, items, key, n - 1), RenderAll(enc, ItemFields(items, key, n - 1)),
                 [ItemPiece(enc, item, arrayKey)], RenderAll(enc, ItemFieldsOf(item, arrayKey)));
    }
  }

  lemma {:induction false} ItemIsFields(enc: Encoder, item: JValue, arrayKey: string)
    ensures ItemPiece(enc, item, arrayKey) == Join(RenderAll(enc, ItemFieldsOf(item, arrayKey)), "&")
    ensures |ItemFieldsOf(item, arrayKey)| > 0
    decreases item, 4
  {
    if IsComposite(item) {
      NestedIsFields(enc, item, arrayKey);
    }
  }

  /** When the encoder never yields `&`, as a percent-encoder does not,
      splitting the query string at `&` gives back the rendered fields. */
  lemma QueryStringSplitsIntoFields(enc: Encoder, v: JValue, prefix: string)
    requires forall x :: '&' !in enc(x)
    requires |Fields(v, prefix)| > 0
    ensures Split(QueryString(enc, v, prefix), '&') == RenderAll(enc, Fields(v, prefix))
  {
    QueryStringIsFields(enc, v, prefix);
    RenderedHaveNoAmpersand(enc, Fields(v, prefix));
    SplitJoin(RenderAll(enc, Fields(v, prefix)), '&');
  }

  lemma {:induction false} RenderedHaveNoAmpersand(enc: Encoder, fs: seq<Field>)
    requires forall x :: '&' !in enc(x)
    ensures forall k :: 0 <= k < |fs| ==> '&' !in RenderAll(enc, fs)[k]
  {
    if |fs| > 0 {
      RenderedHaveNoAmpersand(enc, fs[..|fs| - 1]);
      var r := RenderAll(enc, fs);
      assert r == RenderAll(enc, fs[..|fs| - 1]) + [Render(enc, fs[|fs| - 1])];
      match fs[|fs| - 1]
      case Field(path, text) =>
        assert '&' !in enc(path) && '&' !in enc(text);
        assert Render(enc, fs[|fs| - 1]) == enc(path) + ("=" + enc(text));
      case Blank =>
    }
  }

  /** A key whose value is an empty object pushes one empty piece, so the
      query string gets an empty field between two `&`. */
  lemma EmptyObjectGivesBlankPiece(enc: Encoder, key: string, prefix: string)
    ensures MemberPieces(enc, key, JObject([]), prefix) == [""]
    ensures MemberFields(key, JObject([]), prefix) == [Blank]
  {
  }

  /** A primitive under a nested key has the path `parent[child]`; `null`
      takes the leaf case and is written as `null`. */
  lemma NestedKeyPath(key: string, child: string, x: JValue)
    requires |key| > 0 && !IsComposite(x)
    ensures Fields(JObject([(key, JObject([(child, x)]))]), "") == [Field(key + "[" + child + "]", PrimitiveText(x))]
    ensures Fields(JObject([(key, JNull)]), "") == [Field(key, "null")]
  {
    var m := [(child, x)];
    var inner := JObject(m);
    var f := [Field(key + "[" + child + "]", PrimitiveText(x))];
    assert MemberFields(child, x, key) == f;
    assert MembersFields(m, key, 1) == MembersFields(m, key, 0) + MemberFields(child, x, key);
    assert Fields(inner, key) == f;
    assert MemberFields(key, inner, "") == f;
    var outer := [(key, inner)];
    assert MembersFields(outer, "", 1) == MembersFields(outer, "", 0) + MemberFields(key, inner, "");
    var nul := [(key, JNull)];
    assert MembersFields(nul, "", 1) == MembersFields(nul, "", 0) + MemberFields(key, JNull, "");
  }

  /** Array items get the path `key[index]`, in order. */
  lemma ArrayItemPaths(key: string, x: JValue, y: JValue)
    requires !IsComposite(x) && !IsComposite(y)
    ensures MemberFields(key, JArray([x, y]), "") ==
      [Field(key + "[0]", PrimitiveText(x)), Field(key + "[1]", PrimitiveText(y))]
  {
    assert NatToString(0) == "0" && NatToString(1) == "1";
    assert ItemKey(key, 0) == key + "[0]" && ItemKey(key, 1) == key + "[1]";
    var items := [x, y];
    assert ItemFields(items, key, 1) == ItemFields(items, key, 0) + ItemFieldsOf(x, key + "[0]");
    assert ItemFields(items, key, 2) == ItemFields(items, key, 1) + ItemFieldsOf(y, key + "[1]");
  }
}
