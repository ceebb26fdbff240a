/** The tool router's reply parser (DeskPilot.infer_tools): the model's
    reply is trimmed and lower-cased; a reply that mentions `none` anywhere
    selects no tool, otherwise every comma-separated token that is, once
    trimmed, a key of the tool catalog is selected, in reply order. */
module Router {
  import opened Text

  /** The keys of TOOL_CATALOG. */
  const Catalog: set<string> := {"time", "email", "search", "wikipedia", "plan", "file"}

  /** What the router keeps of one token: the token trimmed, when that is a
      catalog key, and nothing otherwise. */
  function Keep(token: string): seq<string> {
    if Strip(token) in Catalog then [Strip(token)] else []
  }

  /** The list comprehension over the tokens: at most one name per token. */
  function Select(tokens: seq<string>): (names: seq<string>)
    ensures |names| <= |tokens|
    decreases |tokens|
  {
    if tokens == [] then [] else Keep(tokens[0]) + Select(tokens[1..])
  }

  /** The tools the router selects for the model's reply, every one of them
      a catalog key. */
  function ParseRoute(reply: string): (tools: seq<string>)
    ensures forall i :: 0 <= i < |tools| ==> tools[i] in Catalog
  {
    var text := Lower(Strip(reply));
    if Contains(text, "none") then []
    else
      var tokens := Split(text, ',');
      SelectKeysOnly(tokens);
      Select(tokens)
  }

  // ------------------------------------------------------------ Select

  lemma {:induction false} SelectAppend(a: seq<string>, b: seq<string>)
    ensures Select(a + b) == Select(a) + Select(b)
    decreases |a|
  {
    if a == [] {
      assert a + b == b;
    } else {
      var ab := a + b;
      assert ab[0] == a[0] && ab[1..] == a[1..] + b;
      SelectAppend(a[1..], b);
      assert Select(ab) == Keep(a[0]) + Select(a[1..] + b);
    }
  }

  /** Only catalog keys are selected. */
  lemma {:induction false} SelectKeysOnly(tokens: seq<string>)
    ensures forall i :: 0 <= i < |Select(tokens)| ==> Select(tokens)[i] in Catalog
    decreases |tokens|
  {
    if tokens != [] {
      SelectKeysOnly(tokens[1..]);
      assert Select(tokens) == Keep(tokens[0]) + Select(tokens[1..]);
    }
  }

  /** A name is selected exactly when it is a catalog key that some token
      trims to. */
  lemma {:induction false} SelectMembers(tokens: seq<string>, x: string)
    ensures x in Select(tokens) <==>
              x in Catalog && exists i :: 0 <= i < |tokens| && Strip(tokens[i]) == x
    decreases |tokens|
  {
    if tokens != [] {
      SelectMembers(tokens[1..], x);
      assert forall i :: 1 <= i < |tokens| ==> tokens[i] == tokens[1..][i - 1];
      assert forall i :: 0 <= i < |tokens| - 1 ==> tokens[1..][i] == tokens[i + 1];
    }
  }

  /** Token lists that trim alike select alike. */
  lemma {:induction false} SelectPointwise(a: seq<string>, b: seq<string>)
    requires |a| == |b|
    requires forall i :: 0 <= i < |a| ==> Strip(a[i]) == Strip(b[i])
    ensures Select(a) == Select(b)
    decreases |a|
  {
    if a != [] {
      SelectPointwise(a[1..], b[1..]);
      assert Select(a) == Keep(a[0]) + Select(a[1..]);
      assert Select(b) == Keep(b[0]) + Select(b[1..]);
    }
  }

  /** Whitespace around the text being split only pads its first and last
      tokens, which are trimmed anyway. */
  lemma SelectPadded(pre: string, mid: string, post: string)
    requires AllSpace(pre) && AllSpace(post)
    ensures Select(Split(pre + mid + post, ',')) == Select(Split(mid, ','))
  {
    var p, f := Split(mid, ','), Split(pre + mid + post, ',');
    var n := |p|;
    assert ',' !in pre && ',' !in post;
    SplitPadded(pre, mid, post, ',');
    forall i | 0 <= i < n ensures Strip(f[i]) == Strip(p[i]) {
      if i == 0 && n == 1 {
        StripPadded(pre, p[i], post);
      } else if i == 0 {
        assert f[i] == pre + p[i] + [];
        StripPadded(pre, p[i], []);
      } else if i == n - 1 {
        assert f[i] == [] + p[i] + post;
        StripPadded([], p[i], post);
      }
    }
    SelectPointwise(f, p);
  }

  // ------------------------------------------------------------ ParseRoute

  /** Lower-casing the reply keeps the whitespace that Strip removes around
      the lower-cased stripped reply. */
  lemma LowerAroundStrip(reply: string)
    ensures var k, t, low := Indent(reply), Strip(reply), Lower(reply);
            k + |t| <= |low| &&
            low == low[..k] + Lower(t) + low[k + |t|..] &&
            AllSpace(low[..k]) && AllSpace(low[k + |t|..])
  {
    StripSpec(reply);
    var k, t, low := Indent(reply), Strip(reply), Lower(reply);
    assert Lower(t) == low[k..k + |t|] by {
      LowerSlice(reply, k, k + |t|);
    }
    assert low == low[..k] + low[k..k + |t|] + low[k + |t|..];
    assert AllSpace(low[..k]) by {
      LowerSpaces(reply, 0, k);
      assert low[0..k] == low[..k];
    }
    assert AllSpace(low[k + |t|..]) by {
      LowerSpaces(reply, k + |t|, |reply|);
      assert low[k + |t|..|reply|] == low[k + |t|..];
    }
  }

  /** The trimming of the whole reply does not matter: the route is decided
      by the lower-cased raw reply alone. */
  lemma RouteOnRawReply(reply: string)
    ensures ParseRoute(reply) ==
              if Contains(Lower(reply), "none") then [] else Select(Split(Lower(reply), ','))
  {
    var k, t, low := Indent(reply), Strip(reply), Lower(reply);
    LowerAroundStrip(reply);
    var pre, mid, post := low[..k], Lower(t), low[k + |t|..];
    ContainsPadded(pre, mid, post, "none");
    SelectPadded(pre, mid, post);
  }

  /** Matching ignores case: replies that lower-case alike route alike. */
  lemma RouteIgnoresCase(a: string, b: string)
    requires Lower(a) == Lower(b)
    ensures ParseRoute(a) == ParseRoute(b)
  {
    RouteOnRawReply(a);
    RouteOnRawReply(b);
  }

  /** `none` anywhere in the reply, in any case, vetoes every tool, whatever
      else the reply names. */
  lemma NoneVetoes(a: string, w: string, b: string)
    requires Lower(w) == "none"
    ensures ParseRoute(a + w + b) == []
  {
    RouteOnRawReply(a + w + b);
    LowerConcat(a + w, b);
    LowerConcat(a, w);
    assert OccursAt(Lower(a) + Lower(w) + Lower(b), "none", |a|);
    ContainsIff(Lower(a + w + b), "none");
  }

  /** A name is routed exactly when the reply has no `none` and one of its
      comma-separated tokens trims to that catalog key. */
  lemma RouteMembers(reply: string, x: string)
    ensures var tokens := Split(Lower(reply), ',');
            x in ParseRoute(reply) <==>
              !Contains(Lower(reply), "none") && x in Catalog &&
              exists i :: 0 <= i < |tokens| && Strip(tokens[i]) == x
  {
    RouteOnRawReply(reply);
    SelectMembers(Split(Lower(reply), ','), x);
  }

  /** The route of `a,b` is the route of a followed by the route of b:
      order and duplicates are kept, token by token. */
  lemma RouteDistributes(a: string, b: string)
    requires !Contains(Lower(a + "," + b), "none")
    ensures ParseRoute(a + "," + b) == ParseRoute(a) + ParseRoute(b)
  {
    var la, lb := Lower(a), Lower(b);
    LowerConcat(a + ",", b);
    LowerConcat(a, ",");
    assert Lower(a + "," + b) == la + [','] + lb;
    ContainsWithin([], la, [','] + lb, "none");
    assert [] + la + ([','] + lb) == la + [','] + lb;
    ContainsWithin(la + [','], lb, [], "none");
    assert la + [','] + lb + [] == la + [','] + lb;
    RouteOnRawReply(a);
    RouteOnRawReply(b);
    RouteOnRawReply(a + "," + b);
    SplitConcat(la, lb, ',');
    SelectAppend(Split(la, ','), Split(lb, ','));
  }

  /** Blank text holds no `none` and no catalog key. */
  lemma BlankSelectsNothing(text: string)
    requires AllSpace(text)
    ensures !Contains(text, "none") && Select(Split(text, ',')) == []
  {
    assert text + [] + [] == text;
    assert !Contains(text, "none") by {
      ContainsPadded(text, [], [], "none");
    }
    assert Select(Split(text, ',')) == Select([[]]) by {
      SelectPadded(text, [], []);
    }
    assert Keep([]) == [] by {
      assert Strip([]) == [];
    }
  }

  /** A blank reply routes nowhere. */
  lemma BlankRoutesNowhere(reply: string)
    requires AllSpace(reply)
    ensures ParseRoute(reply) == []
  {
    LowerKeepsSpace(reply);
    BlankSelectsNothing(Lower(reply));
    RouteOnRawReply(reply);
  }

  /** A token that is its own lower case, strips to itself and holds no
      comma routes like a single token. */
  lemma PlainTokenRoute(w: string)
    requires Lower(w) == w && Strip(w) == w && Split(w, ',') == [w]
    requires !Contains(w, "none")
    ensures ParseRoute(w) == if w in Catalog then [w] else []
  {
    assert Select([w]) == Keep(w) + Select([]);
    RouteOnRawReply(w);
  }

  /** A bare lower-case token with no `none` in it routes to itself when it
      is a catalog key, and to nothing otherwise. */
  lemma TokenRoute(w: string)
    requires forall i :: 0 <= i < |w| ==> !IsSpace(w[i]) && !('A' <= w[i] <= 'Z') && w[i] != ','
    requires !Contains(w, "none")
    ensures ParseRoute(w) == if w in Catalog then [w] else []
  {
    LowerFixed(w);
    StripSolid(w);
    SplitNoSep(w, ',');
    PlainTokenRoute(w);
  }

  /** A lower-case word (letters a to z only) with no `o`, hence no `none`. */
  predicate Plain(w: string) {
    'o' !in w && forall i :: 0 <= i < |w| ==> 'a' <= w[i] <= 'z'
  }

  /** A lower-case word that does not mention `none`. */
  predicate Word(w: string) {
    (forall i :: 0 <= i < |w| ==> 'a' <= w[i] <= 'z') && !Contains(w, "none")
  }

  lemma KeyWords()
    ensures Plain("time") && Plain("email") && Plain("search")
    ensures Plain("wikipedia") && Plain("plan") && Plain("file")
  {
  }

  /** Every catalog key is a lower-case word without `none` in it. */
  lemma KeyIsWord(key: string)
    requires key in Catalog
    ensures Word(key)
  {
    KeyWords();
    assert Plain(key);
    ContainsChars(key, "none", 'o');
  }

  /** Comma-joined words are already lower-case and hold no `none`. */
  lemma {:induction false} WordList(words: seq<string>)
    requires |words| >= 1
    requires forall i :: 0 <= i < |words| ==> Word(words[i])
    ensures Lower(Join(words, ',')) == Join(words, ',')
    ensures !Contains(Join(words, ','), "none")
    decreases |words|
  {
    LowerFixed(words[0]);
    if |words| > 1 {
      var rest := Join(words[1..], ',');
      assert forall i :: 0 <= i < |words| - 1 ==> words[1..][i] == words[i + 1];
      WordList(words[1..]);
      LowerConcat(words[0] + [','], rest);
      LowerConcat(words[0], [',']);
      assert Lower([',']) == [','];
      ContainsAcrossSep(words[0], ',', rest, "none");
    }
  }

  /** A catalog key is kept as it is. */
  lemma KeepKey(key: string)
    requires key in Catalog
    ensures Keep(key) == [key]
  {
    KeyIsWord(key);
    StripSolid(key);
  }

  /** Tokens that are each kept as they are come out unchanged. */
  lemma {:induction false} SelectKept(tokens: seq<string>)
    requires forall i :: 0 <= i < |tokens| ==> Keep(tokens[i]) == [tokens[i]]
    ensures Select(tokens) == tokens
    decreases |tokens|
  {
    if tokens != [] {
      assert forall i :: 0 <= i < |tokens| - 1 ==> tokens[1..][i] == tokens[i + 1];
      SelectKept(tokens[1..]);
      assert Select(tokens) == Keep(tokens[0]) + Select(tokens[1..]);
      assert tokens == [tokens[0]] + tokens[1..];
    }
  }

  /** A reply that lists catalog keys between commas routes to exactly that
      list: same keys, same order, duplicates kept. */
  lemma KeyListRoundTrip(keys: seq<string>)
    requires |keys| >= 1
    requires forall i :: 0 <= i < |keys| ==> keys[i] in Catalog
    ensures ParseRoute(Join(keys, ',')) == keys
  {
    forall i | 0 <= i < |keys|
      ensures Word(keys[i]) && ',' !in keys[i] && Keep(keys[i]) == [keys[i]]
    {
      KeyIsWord(keys[i]);
      KeepKey(keys[i]);
    }
    WordList(keys);
    JoinSplit(keys, ',');
    SelectKept(keys);
    RouteOnRawReply(Join(keys, ','));
  }
}
