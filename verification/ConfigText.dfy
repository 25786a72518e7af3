/**
  Configuration values as texts: the search for a `{key}` reference, the substitution that
  `str.format` does, and the values these agree on, plain text with simple references.
*/
module ConfigText {
  import opened Strings

  /** A value: plain text without braces, and references. */
  datatype Token = Text(text: string) | Ref(key: string)

  type Template = seq<Token>

  type Params = map<string, Template>

  function Refs(t: Template): seq<string> {
    if t == [] then [] else if t[0].Text? then Refs(t[1..]) else [t[0].key] + Refs(t[1..])
  }

  function FirstRef(t: Template): Option<string> {
    if Refs(t) == [] then None else Some(Refs(t)[0])
  }

  /** The text of a value without references. */
  function Flat(t: Template): string {
    if t == [] then "" else (if t[0].Text? then t[0].text else "") + Flat(t[1..])
  }

  predicate AllDefined(params: Params, t: Template) { forall k :: k in Refs(t) ==> k in params }

  /** Every reference replaced at once. */
  function Substitute(params: Params, t: Template): Template
    requires AllDefined(params, t)
  {
    if t == [] then []
    else if t[0].Text? then
      assert forall k :: k in Refs(t[1..]) ==> k in Refs(t);
      [t[0]] + Substitute(params, t[1..])
    else
      assert Refs(t)[0] in Refs(t);
      assert forall k :: k in Refs(t[1..]) ==> k in Refs(t);
      params[t[0].key] + Substitute(params, t[1..])
  }

  // ----- Writing -----

  function RefText(key: string): string { "{" + key + "}" }

  function ShowToken(t: Token): string { if t.Text? then t.text else RefText(t.key) }

  function Show(t: Template): string { if t == [] then "" else ShowToken(t[0]) + Show(t[1..]) }

  predicate NoBraces(s: string) { '{' !in s && '}' !in s }

  /** A name that `str.format` looks up as it stands: no position, attribute, index, conversion or format. */
  predicate SimpleKey(k: string) {
    !IsDigits(k) && NoBraces(k) && forall c :: c in k ==> c !in ['!', ':', '.', '[', '\n']
  }

  predicate Plain(t: Template) {
    forall x :: x in t ==> if x.Text? then NoBraces(x.text) else SimpleKey(x.key)
  }

  predicate PlainParams(params: Params) { forall k :: k in params ==> Plain(params[k]) }

  function ShowAll(params: Params): map<string, string> { map k | k in params :: Show(params[k]) }

  lemma ShowCons(x: Token, t: Template)
    ensures Show([x] + t) == ShowToken(x) + Show(t)
  {
    assert ([x] + t)[1..] == t;
  }

  lemma {:induction false} ShowConcat(a: Template, b: Template)
    ensures Show(a + b) == Show(a) + Show(b)
  {
    if a == [] {
      assert a + b == b;
    } else {
      assert a + b == [a[0]] + (a[1..] + b);
      calc {
        Show(a + b);
        { ShowCons(a[0], a[1..] + b); ShowConcat(a[1..], b); }
        ShowToken(a[0]) + (Show(a[1..]) + Show(b));
        (ShowToken(a[0]) + Show(a[1..])) + Show(b);
      }
    }
  }

  lemma {:induction false} FlatShow(t: Template)
    requires Refs(t) == []
    ensures Show(t) == Flat(t)
  {
    if t != [] {
      FlatShow(t[1..]);
    }
  }

  lemma {:induction false} RefsShow(t: Template)
    requires Refs(t) != []
    ensures '{' in Show(t)
  {
    if t[0].Ref? {
      assert Show(t)[0] == '{';
    } else {
      RefsShow(t[1..]);
    }
  }

  lemma {:induction false} SubstitutePlain(params: Params, t: Template)
    requires AllDefined(params, t) && Plain(t) && PlainParams(params)
    ensures Plain(Substitute(params, t))
  {
    if t != [] {
      assert forall k :: k in Refs(t[1..]) ==> k in Refs(t);
      assert t[0].Ref? ==> Refs(t)[0] == t[0].key;
      SubstitutePlain(params, t[1..]);
    }
  }

  // ----- Reading -----

  /** The value that a text spells, if its braces stand around simple keys only. */
  function Read(s: string): Option<Template>
    decreases |s|
  {
    if s == "" then Some([])
    else if s[0] == '{' then
      if '}' !in s || !SimpleKey(s[1..IndexOf(s, '}')]) then None
      else
        var i := IndexOf(s, '}');
        var rest := Read(s[i + 1..]);
        if rest.None? then None else Some([Ref(s[1..i])] + rest.value)
    else if s[0] == '}' then None
    else
      var rest := Read(s[1..]);
      if rest.None? then None else Some([Text([s[0]])] + rest.value)
  }

  predicate Simple(s: string) { Read(s).Some? }

  function Reading(s: string): Template
    requires Simple(s)
  {
    Read(s).value
  }

  predicate SimpleParams(params: map<string, string>) { forall k :: k in params ==> Simple(params[k]) }

  function ReadAll(params: map<string, string>): Params
    requires SimpleParams(params)
  {
    map k | k in params :: Reading(params[k])
  }

  lemma PlainCons(x: Token, t: Template)
    requires Plain(t) && if x.Text? then NoBraces(x.text) else SimpleKey(x.key)
    ensures Plain([x] + t) && Show([x] + t) == ShowToken(x) + Show(t)
  {
    ShowCons(x, t);
  }

  lemma CutReference(s: string, i: nat)
    requires 0 < i < |s| && s[0] == '{' && s[i] == '}'
    ensures RefText(s[1..i]) + s[i + 1..] == s
  {
  }

  /** A reading is plain and spells the text. */
  lemma {:induction false} ShowReading(s: string)
    requires Simple(s)
    ensures Plain(Reading(s)) && Show(Reading(s)) == s
    decreases |s|
  {
    if s != "" {
      if s[0] == '{' {
        var i := IndexOf(s, '}');
        var k, rest := s[1..i], s[i + 1..];
        ShowReading(rest);
        CutReference(s, i);
        PlainCons(Ref(k), Reading(rest));
        assert Reading(s) == [Ref(k)] + Reading(rest);
      } else {
        ShowReading(s[1..]);
        PlainCons(Text([s[0]]), Reading(s[1..]));
        assert Reading(s) == [Text([s[0]])] + Reading(s[1..]);
      }
    }
  }

  lemma {:induction false} SimplePrefix(pre: string, s: string)
    requires NoBraces(pre) && Simple(s)
    ensures Simple(pre + s)
  {
    if pre == "" {
      assert pre + s == s;
    } else {
      SimplePrefix(pre[1..], s);
      assert (pre + s)[0] == pre[0] && (pre + s)[1..] == pre[1..] + s;
    }
  }

  /** Every plain value's text has a reading: the simple texts are those that plain values spell. */
  lemma {:induction false} SimpleShow(t: Template)
    requires Plain(t)
    ensures Simple(Show(t))
  {
    if t != [] {
      assert t[0] in t;
      SimpleShow(t[1..]);
      if t[0].Text? {
        SimplePrefix(t[0].text, Show(t[1..]));
      } else {
        RefFirst(t[0].key, Show(t[1..]));
      }
    }
  }

  lemma ShowAllReadings(params: map<string, string>)
    requires SimpleParams(params)
    ensures PlainParams(ReadAll(params)) && ShowAll(ReadAll(params)) == params
  {
    forall k | k in params
      ensures Plain(Reading(params[k])) && Show(Reading(params[k])) == params[k]
    {
      ShowReading(params[k]);
    }
  }

  // ----- Searching -----

  /** The shortest match of `{.*?}` at the start; the dot matches no newline. */
  function MatchAtStart(s: string): Option<string>
    requires s != "" && s[0] == '{'
  {
    if '}' !in s then None
    else
      var i := IndexOf(s, '}');
      if '\n' in s[..i] then None else Some(s[..i + 1])
  }

  /** `re.search("{.*?}", s)`: the leftmost match. */
  function Search(s: string): Option<string> {
    if s == "" then None
    else if s[0] == '{' && MatchAtStart(s).Some? then MatchAtStart(s)
    else Search(s[1..])
  }

  /** At position `i` stands `{`, then neither closing brace nor newline, then `}`. */
  predicate MatchAt(s: string, i: nat, m: string) {
    && i + |m| <= |s| && s[i..i + |m|] == m
    && |m| >= 2 && m[0] == '{' && m[|m| - 1] == '}'
    && '}' !in m[..|m| - 1] && '\n' !in m
  }

  lemma MatchHere(s: string, m: string)
    requires s != "" && s[0] == '{'
    ensures MatchAt(s, 0, m) <==> MatchAtStart(s) == Some(m)
  {
    if MatchAt(s, 0, m) {
      assert s[|m| - 1] == '}' && s[..|m| - 1] == m[..|m| - 1];
      IndexOfIs(s, '}', |m| - 1);
      assert s[..|m|] == m;
    }
    if MatchAtStart(s) == Some(m) {
      var i := IndexOf(s, '}');
      assert m == s[..i] + ['}'] && m[..|m| - 1] == s[..i];
    }
  }

  lemma MatchLater(s: string, i: nat, m: string)
    requires s != ""
    ensures MatchAt(s, i + 1, m) <==> MatchAt(s[1..], i, m)
  {
    if i + 1 + |m| <= |s| {
      assert s[i + 1..i + 1 + |m|] == s[1..][i..i + |m|];
    }
  }

  /** The search finds the leftmost match of any text, if there is one. */
  lemma {:induction false} SearchFinds(s: string)
    ensures var r := Search(s);
            if r.None? then forall i: nat, m :: !MatchAt(s, i, m)
            else exists i: nat :: MatchAt(s, i, r.value) && forall j: nat, m :: j < i ==> !MatchAt(s, j, m)
  {
    if s != "" {
      var rest := s[1..];
      SearchFinds(rest);
      forall i: nat, m
        ensures MatchAt(s, i + 1, m) <==> MatchAt(rest, i, m)
      {
        MatchLater(s, i, m);
      }
      if s[0] == '{' {
        forall m
          ensures MatchAt(s, 0, m) <==> MatchAtStart(s) == Some(m)
        {
          MatchHere(s, m);
        }
      }
      var r := Search(s);
      if s[0] == '{' && MatchAtStart(s).Some? {
        assert MatchAt(s, 0, r.value);
      } else {
        FoundInRest(s);
      }
    }
  }

  /** Without a match at the start the leftmost one is that of the rest. */
  lemma FoundInRest(s: string)
    requires s != "" && Search(s) == Search(s[1..]) && forall m :: !MatchAt(s, 0, m)
    requires forall i: nat, m :: MatchAt(s, i + 1, m) <==> MatchAt(s[1..], i, m)
    requires var r := Search(s[1..]);
             if r.None? then forall i: nat, m :: !MatchAt(s[1..], i, m)
             else exists i: nat :: MatchAt(s[1..], i, r.value) && forall j: nat, m :: j < i ==> !MatchAt(s[1..], j, m)
    ensures var r := Search(s);
            if r.None? then forall i: nat, m :: !MatchAt(s, i, m)
            else exists i: nat :: MatchAt(s, i, r.value) && forall j: nat, m :: j < i ==> !MatchAt(s, j, m)
  {
    var r := Search(s);
    if r.None? {
      forall i: nat, m
        ensures !MatchAt(s, i, m)
      {
        if i > 0 {
          assert MatchAt(s, (i - 1) + 1, m) <==> MatchAt(s[1..], i - 1, m);
        }
      }
    } else {
      var i: nat :| MatchAt(s[1..], i, r.value) && forall j: nat, m :: j < i ==> !MatchAt(s[1..], j, m);
      assert MatchAt(s, i + 1, r.value);
      forall j: nat, m | j < i + 1
        ensures !MatchAt(s, j, m)
      {
        if j > 0 {
          assert MatchAt(s, (j - 1) + 1, m) <==> MatchAt(s[1..], j - 1, m);
        }
      }
    }
  }

  lemma {:induction false} SearchPrefix(pre: string, s: string)
    requires '{' !in pre
    ensures Search(pre + s) == Search(s)
  {
    if pre == "" {
      assert pre + s == s;
    } else {
      SearchPrefix(pre[1..], s);
      assert (pre + s)[1..] == pre[1..] + s;
    }
  }

  /** Where a text starts with a reference. */
  lemma RefFirst(k: string, rest: string)
    requires SimpleKey(k)
    ensures var s := RefText(k) + rest;
            && '}' in s && IndexOf(s, '}') == |k| + 1
            && s[0] == '{' && s[1] != '{' && s[1..|k| + 1] == k && s[..|k| + 2] == RefText(k) && s[|k| + 2..] == rest
  {
    var s := RefText(k) + rest;
    assert k != "" && k[0] in k;
    assert s[..|k| + 1] == "{" + k;
    IndexOfIs(s, '}', |k| + 1);
  }

  /** The search finds the first reference. */
  lemma {:induction false} SearchShow(t: Template)
    requires Plain(t)
    ensures Search(Show(t)) == if FirstRef(t).None? then None else Some(RefText(FirstRef(t).value))
  {
    if t != [] {
      assert t[0] in t;
      SearchShow(t[1..]);
      if t[0].Text? {
        SearchPrefix(t[0].text, Show(t[1..]));
      } else {
        var k := t[0].key;
        RefFirst(k, Show(t[1..]));
        assert Show(t)[..|k| + 1] == "{" + k;
        assert '\n' !in "{" + k;
      }
    }
  }

  // ----- Formatting -----

  /** Unsupported stands for other errors and for fields that are not simple keys. */
  datatype Formatted = Done(text: string) | KeyError | Unsupported

  function Cons(text: string, r: Formatted): Formatted { if r.Done? then Done(text + r.text) else r }

  /** `s.format(**params)`: doubled braces are literal, a field is looked up. */
  function Format(s: string, params: map<string, string>): Formatted
    decreases |s|
  {
    if s == "" then Done("")
    else if s[0] in ['{', '}'] && |s| > 1 && s[1] == s[0] then Cons([s[0]], Format(s[2..], params))
    else if s[0] == '}' then Unsupported
    else if s[0] != '{' then Cons([s[0]], Format(s[1..], params))
    else if '}' !in s || !SimpleKey(s[1..IndexOf(s, '}')]) then Unsupported
    else
      var i := IndexOf(s, '}');
      if s[1..i] !in params then KeyError else Cons(params[s[1..i]], Format(s[i + 1..], params))
  }

  lemma {:induction false} FormatPrefix(pre: string, s: string, params: map<string, string>)
    requires NoBraces(pre)
    ensures Format(pre + s, params) == Cons(pre, Format(s, params))
  {
    if pre == "" {
      assert pre + s == s;
    } else {
      FormatPrefix(pre[1..], s, params);
      assert (pre + s)[1..] == pre[1..] + s;
      assert Format(s, params).Done? ==> [pre[0]] + (pre[1..] + Format(s, params).text) == pre + Format(s, params).text;
    }
  }

  lemma FormatReference(k: string, rest: string, params: map<string, string>)
    requires SimpleKey(k)
    ensures Format(RefText(k) + rest, params)
            == if k in params then Cons(params[k], Format(rest, params)) else KeyError
  {
    RefFirst(k, rest);
  }

  /** Formatting is substitution, or a KeyError when a reference is not defined. */
  lemma {:induction false} FormatShow(params: Params, t: Template)
    requires Plain(t)
    ensures Format(Show(t), ShowAll(params))
            == if AllDefined(params, t) then Done(Show(Substitute(params, t))) else KeyError
  {
    if t != [] {
      assert t[0] in t;
      var rest := t[1..];
      assert forall k :: k in Refs(rest) ==> k in Refs(t);
      FormatShow(params, rest);
      if t[0].Text? {
        FormatPrefix(t[0].text, Show(rest), ShowAll(params));
        if AllDefined(params, t) {
          assert ([t[0]] + Substitute(params, rest))[1..] == Substitute(params, rest);
        }
      } else {
        FormatReference(t[0].key, Show(rest), ShowAll(params));
        assert Refs(t) == [t[0].key] + Refs(rest);
        if AllDefined(params, t) {
          assert Refs(t)[0] in Refs(t);
          ShowConcat(params[t[0].key], Substitute(params, rest));
        }
      }
    }
  }

  /** Doubled braces are literal, a single closing one is an error. */
  lemma FormatBraces(pre: string, post: string, params: map<string, string>)
    requires NoBraces(pre) && NoBraces(post)
    ensures Format(pre + ("{{" + post), params) == Done(pre + ("{" + post))
    ensures Format(pre + ("}}" + post), params) == Done(pre + ("}" + post))
    ensures Format(pre + ("}" + post), params) == Unsupported
    ensures Format(pre + ("{" + post), params) == Unsupported
  {
    FormatPrefix(post, "", params);
    assert post + "" == post;
    assert ("{{" + post)[2..] == post && ("}}" + post)[2..] == post;
    FormatPrefix(pre, "{{" + post, params);
    FormatPrefix(pre, "}}" + post, params);
    FormatPrefix(pre, "}" + post, params);
    FormatPrefix(pre, "{" + post, params);
  }

  /** One reference among plain text, whatever the parameters hold. */
  lemma FormatOne(pre: string, k: string, post: string, params: map<string, string>)
    requires NoBraces(pre) && NoBraces(post) && SimpleKey(k)
    ensures Format(pre + (RefText(k) + post), params)
            == if k in params then Done(pre + (params[k] + post)) else KeyError
  {
    FormatPrefix(pre, RefText(k) + post, params);
    FormatReference(k, post, params);
    FormatPrefix(post, "", params);
    assert post + "" == post;
  }

  // ----- A round of the loop, on texts -----

  /** What searching and formatting make of the text of a value. */
  lemma RoundOnText(texts: map<string, string>, params: Params, s: string, t: Template)
    requires Plain(t) && PlainParams(params) && texts == ShowAll(params) && s == Show(t)
    ensures Search(s) == if FirstRef(t).None? then None else Some(RefText(FirstRef(t).value))
    ensures FirstRef(t).None? ==> s == Flat(t)
    ensures Format(s, texts) == if AllDefined(params, t) then Done(Show(Substitute(params, t))) else KeyError
    ensures AllDefined(params, t) ==> Plain(Substitute(params, t))
  {
    SearchShow(t);
    if FirstRef(t).None? {
      FlatShow(t);
    }
    FormatShow(params, t);
    if AllDefined(params, t) {
      SubstitutePlain(params, t);
    }
  }
}
