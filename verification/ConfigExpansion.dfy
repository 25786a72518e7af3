/**
  Resolving `{key}` references in configuration values. The program substitutes all references of
  a value at once, round after round, and stops with an error when the reference at the front was
  at the front before. Here this is compared with expanding each reference recursively.
*/
module ConfigExpansion {
  import opened ConfigText
  import opened Strings

  /** Both errors are RuntimeErrors in the program. */
  datatype Result = Value(text: string) | Circular | Missing

  // ----- Recursive expansion -----

  function Prepend(text: string, r: Result): Result {
    if r.Value? then Value(text + r.text) else r
  }

  /** Each reference replaced by the expansion of its value; `path` holds the references being expanded. */
  function Expand(params: Params, t: Template, path: set<string>): Result
    decreases |params.Keys - path|, |t|
  {
    if t == [] then Value("")
    else if t[0].Text? then Prepend(t[0].text, Expand(params, t[1..], path))
    else
      var k := t[0].key;
      if k in path then Circular
      else if k !in params then Missing
      else
        assert params.Keys - path == (params.Keys - (path + {k})) + {k};
        var inner := Expand(params, params[k], path + {k});
        if inner.Value? then Prepend(inner.text, Expand(params, t[1..], path)) else inner
  }

  // ----- Expansion by depth -----

  function Append(a: Option<string>, b: Option<string>): Option<string> {
    if a.Some? && b.Some? then Some(a.value + b.value) else None
  }

  /** The expansion of a value whose references nest at most `depth` deep. */
  function ExpandTo(params: Params, depth: nat, t: Template): Option<string>
    decreases depth, |t|
  {
    if t == [] then Some("")
    else if t[0].Text? then Append(Some(t[0].text), ExpandTo(params, depth, t[1..]))
    else if depth == 0 || t[0].key !in params then None
    else Append(ExpandTo(params, depth - 1, params[t[0].key]), ExpandTo(params, depth, t[1..]))
  }

  lemma AppendAssociative(a: Option<string>, b: Option<string>, c: Option<string>)
    ensures Append(a, Append(b, c)) == Append(Append(a, b), c)
  {
    if a.Some? && b.Some? && c.Some? {
      assert a.value + (b.value + c.value) == (a.value + b.value) + c.value;
    }
  }

  lemma AppendEmpty(a: Option<string>)
    ensures Append(Some(""), a) == a && Append(a, Some("")) == a
  {
    if a.Some? {
      assert "" + a.value == a.value && a.value + "" == a.value;
    }
  }

  lemma {:induction false} ExpandToConcat(params: Params, depth: nat, a: Template, b: Template)
    ensures ExpandTo(params, depth, a + b) == Append(ExpandTo(params, depth, a), ExpandTo(params, depth, b))
    decreases |a|
  {
    var whole := ExpandTo(params, depth, b);
    if a == [] {
      assert a + b == b;
      AppendEmpty(whole);
    } else {
      ExpandToConcat(params, depth, a[1..], b);
      assert (a + b)[1..] == a[1..] + b;
      var first := if a[0].Text? then Some(a[0].text)
                   else if depth == 0 || a[0].key !in params then None
                   else ExpandTo(params, depth - 1, params[a[0].key]);
      AppendAssociative(first, ExpandTo(params, depth, a[1..]), whole);
    }
  }

  /** One round of substitution takes one level of nesting away. */
  lemma {:induction false} SubstituteStep(params: Params, depth: nat, t: Template)
    requires AllDefined(params, t)
    ensures ExpandTo(params, depth + 1, t) == ExpandTo(params, depth, Substitute(params, t))
    decreases |t|
  {
    if t != [] {
      assert forall k :: k in Refs(t[1..]) ==> k in Refs(t);
      SubstituteStep(params, depth, t[1..]);
      var rest := Substitute(params, t[1..]);
      if t[0].Text? {
        assert ([t[0]] + rest)[1..] == rest;
      } else {
        assert Refs(t)[0] == t[0].key;
        ExpandToConcat(params, depth, params[t[0].key], rest);
      }
    }
  }

  lemma {:induction false} ExpandToMore(params: Params, depth: nat, t: Template)
    requires ExpandTo(params, depth, t).Some?
    ensures ExpandTo(params, depth + 1, t) == ExpandTo(params, depth, t)
    decreases depth, |t|
  {
    if t != [] {
      ExpandToMore(params, depth, t[1..]);
      if t[0].Ref? {
        ExpandToMore(params, depth - 1, params[t[0].key]);
      }
    }
  }

  lemma {:induction false} ExpandToMuchMore(params: Params, depth: nat, depth': nat, t: Template)
    requires depth <= depth' && ExpandTo(params, depth, t).Some?
    ensures ExpandTo(params, depth', t) == ExpandTo(params, depth, t)
    decreases depth' - depth
  {
    if depth < depth' {
      ExpandToMore(params, depth, t);
      ExpandToMuchMore(params, depth + 1, depth', t);
    }
  }

  /** The least depth at which a reference expands. */
  lemma {:induction false} LeastDepth(params: Params, depth: nat, k: string) returns (least: nat)
    requires ExpandTo(params, depth, [Ref(k)]).Some?
    ensures 0 < least <= depth
    ensures ExpandTo(params, least, [Ref(k)]).Some? && ExpandTo(params, least - 1, [Ref(k)]).None?
    decreases depth
  {
    if ExpandTo(params, depth - 1, [Ref(k)]).Some? {
      least := LeastDepth(params, depth - 1, k);
    } else {
      least := depth;
    }
  }

  lemma ExpandToRef(params: Params, depth: nat, k: string)
    ensures ExpandTo(params, depth, [Ref(k)])
            == if depth == 0 || k !in params then None else ExpandTo(params, depth - 1, params[k])
  {
    assert [Ref(k)][1..] == [];
    assert ExpandTo(params, depth, []) == Some("");
    if depth != 0 && k in params {
      AppendEmpty(ExpandTo(params, depth - 1, params[k]));
    }
  }

  /** What expands by depth expands recursively to the same text, unless a key of the path comes back. */
  lemma {:induction false} DepthToRecursive(params: Params, depth: nat, t: Template, path: set<string>)
    requires ExpandTo(params, depth, t).Some?
    requires forall p :: p in path ==> ExpandTo(params, depth, [Ref(p)]).None?
    ensures Expand(params, t, path) == Value(ExpandTo(params, depth, t).value)
    decreases depth, |t|
  {
    if t != [] {
      DepthToRecursive(params, depth, t[1..], path);
      if t[0].Ref? {
        var k := t[0].key;
        ExpandToRef(params, depth, k);
        var least := LeastDepth(params, depth, k);
        ExpandToRef(params, least, k);
        forall p | p in path + {k}
          ensures ExpandTo(params, least - 1, [Ref(p)]).None?
        {
          if p in path && ExpandTo(params, least - 1, [Ref(p)]).Some? {
            ExpandToMuchMore(params, least - 1, depth, [Ref(p)]);
          }
        }
        DepthToRecursive(params, least - 1, params[k], path + {k});
        ExpandToMuchMore(params, least - 1, depth - 1, params[k]);
      }
    }
  }

  lemma OneKeyLess(keys: set<string>, path: set<string>, k: string)
    requires k in keys && k !in path
    ensures |keys - (path + {k})| == |keys - path| - 1
  {
    assert keys - path == (keys - (path + {k})) + {k};
  }

  /** What expands recursively nests no deeper than there are parameters. */
  lemma {:induction false} RecursiveToDepth(params: Params, t: Template, path: set<string>)
    requires Expand(params, t, path).Value?
    ensures ExpandTo(params, |params.Keys - path|, t) == Some(Expand(params, t, path).text)
    decreases |params.Keys - path|, |t|
  {
    if t != [] {
      var depth := |params.Keys - path|;
      RecursiveToDepth(params, t[1..], path);
      if t[0].Text? {
        assert ExpandTo(params, depth, t) == Append(Some(t[0].text), ExpandTo(params, depth, t[1..]));
      } else {
        var k := t[0].key;
        OneKeyLess(params.Keys, path, k);
        RecursiveToDepth(params, params[k], path + {k});
        assert ExpandTo(params, depth, t)
               == Append(ExpandTo(params, depth - 1, params[k]), ExpandTo(params, depth, t[1..]));
      }
    }
  }

  /** The two notions of expansion agree. */
  lemma ExpandsIff(params: Params, t: Template)
    ensures Expand(params, t, {}).Value? <==> exists depth: nat :: ExpandTo(params, depth, t).Some?
    ensures forall depth: nat :: ExpandTo(params, depth, t).Some?
                                 ==> Expand(params, t, {}) == Value(ExpandTo(params, depth, t).value)
  {
    if Expand(params, t, {}).Value? {
      RecursiveToDepth(params, t, {});
    }
    forall depth: nat | ExpandTo(params, depth, t).Some?
      ensures Expand(params, t, {}) == Value(ExpandTo(params, depth, t).value)
    {
      DepthToRecursive(params, depth, t, {});
    }
  }

  // ----- Cycles -----

  predicate Mentions(t: Template, keys: set<string>) { exists k :: k in Refs(t) && k in keys }

  /** Keys each of whose values refers to one of them again; every cycle with what leads to it is such a set. */
  predicate FeedsItself(params: Params, keys: set<string>) {
    forall k {:trigger Mentions(params[k], keys)} :: k in keys ==> k in params && Mentions(params[k], keys)
  }

  lemma {:induction false} NoDepthForCycle(params: Params, keys: set<string>, depth: nat, t: Template)
    requires FeedsItself(params, keys) && Mentions(t, keys)
    ensures ExpandTo(params, depth, t).None?
    decreases depth, |t|
  {
    if t[0].Ref? && t[0].key in keys {
      if depth > 0 && t[0].key in params {
        assert Mentions(params[t[0].key], keys);
        NoDepthForCycle(params, keys, depth - 1, params[t[0].key]);
      }
    } else {
      MentionedLater(t, keys);
      NoDepthForCycle(params, keys, depth, t[1..]);
    }
  }

  lemma MentionedLater(t: Template, keys: set<string>)
    requires Mentions(t, keys) && t != [] && !(t[0].Ref? && t[0].key in keys)
    ensures Mentions(t[1..], keys)
  {
    var k :| k in Refs(t) && k in keys;
    assert k in Refs(t[1..]);
  }

  /** A value from which a cycle is reached has no expansion. */
  lemma CycleHasNoExpansion(params: Params, keys: set<string>, t: Template)
    requires FeedsItself(params, keys) && Mentions(t, keys)
    ensures !Expand(params, t, {}).Value?
  {
    if Expand(params, t, {}).Value? {
      RecursiveToDepth(params, t, {});
      NoDepthForCycle(params, keys, |params.Keys - {}|, t);
    }
  }

  // ----- The front references -----

  /**
    The leftmost reference at depth `d` of the tree of references: the first of the value itself,
    or of the first value referred to that has one a level up.
  */
  function Lead(params: Params, d: nat, t: Template): Option<string>
    decreases d, |t|
  {
    if d == 0 then FirstRef(t)
    else if t == [] then None
    else if t[0].Text? || t[0].key !in params then Lead(params, d, t[1..])
    else
      var inner := Lead(params, d - 1, params[t[0].key]);
      if inner.Some? then inner else Lead(params, d, t[1..])
  }

  function OrElse(a: Option<string>, b: Option<string>): Option<string> { if a.Some? then a else b }

  lemma {:induction false} RefsConcat(a: Template, b: Template)
    ensures Refs(a + b) == Refs(a) + Refs(b)
  {
    if a == [] {
      assert a + b == b;
    } else {
      RefsConcat(a[1..], b);
      assert (a + b)[1..] == a[1..] + b;
      if a[0].Ref? {
        assert [a[0].key] + (Refs(a[1..]) + Refs(b)) == ([a[0].key] + Refs(a[1..])) + Refs(b);
      }
    }
  }

  lemma {:induction false} LeadConcat(params: Params, d: nat, a: Template, b: Template)
    ensures Lead(params, d, a + b) == OrElse(Lead(params, d, a), Lead(params, d, b))
    decreases |a|
  {
    if d == 0 {
      RefsConcat(a, b);
    } else if a == [] {
      assert a + b == b;
    } else {
      LeadConcat(params, d, a[1..], b);
      assert (a + b)[1..] == a[1..] + b;
    }
  }

  /** A round of substitution moves every depth up by one. */
  lemma {:induction false} LeadSubstitute(params: Params, d: nat, t: Template)
    requires AllDefined(params, t)
    ensures Lead(params, d, Substitute(params, t)) == Lead(params, d + 1, t)
    decreases |t|
  {
    if t == [] {
      assert Refs([]) == [];
    } else {
      assert forall k :: k in Refs(t[1..]) ==> k in Refs(t);
      LeadSubstitute(params, d, t[1..]);
      var rest := Substitute(params, t[1..]);
      if t[0].Text? {
        LeadConcat(params, d, [t[0]], rest);
        assert [t[0]][1..] == [] && Refs([]) == [];
        NoRefsNoLead(params, d, [t[0]]);
      } else {
        assert Refs(t)[0] == t[0].key;
        LeadConcat(params, d, params[t[0].key], rest);
      }
    }
  }

  lemma {:induction false} NoRefsNoLead(params: Params, d: nat, t: Template)
    requires Refs(t) == []
    ensures Lead(params, d, t).None?
    decreases |t|
  {
    if d != 0 && t != [] {
      NoRefsNoLead(params, d, t[1..]);
    }
  }

  lemma {:induction false} NoRefsFlat(params: Params, depth: nat, t: Template)
    requires Refs(t) == []
    ensures ExpandTo(params, depth, t) == Some(Flat(t))
    decreases |t|
  {
    if t != [] {
      NoRefsFlat(params, depth, t[1..]);
    }
  }

  lemma {:induction false} UndefinedHasNoDepth(params: Params, depth: nat, t: Template)
    requires !AllDefined(params, t)
    ensures ExpandTo(params, depth, t).None?
    decreases |t|
  {
    var k :| k in Refs(t) && k !in params;
    if !(t[0].Ref? && t[0].key == k) {
      assert k in Refs(t[1..]);
      UndefinedHasNoDepth(params, depth, t[1..]);
    }
  }

  /** No key is the leftmost reference of two depths. */
  ghost predicate DistinctLeads(params: Params, t: Template) {
    forall i: nat, j: nat :: i < j && Lead(params, i, t).Some? && Lead(params, j, t).Some?
                             ==> Lead(params, i, t) != Lead(params, j, t)
  }

  // ----- Undefined references -----

  /** Every reference at depth `d` of the tree of references is a parameter. */
  predicate DefinedAt(params: Params, d: nat, t: Template)
    decreases d, |t|
  {
    if d == 0 then AllDefined(params, t)
    else if t == [] then true
    else
      && (t[0].Ref? && t[0].key in params ==> DefinedAt(params, d - 1, params[t[0].key]))
      && DefinedAt(params, d, t[1..])
  }

  lemma {:induction false} DefinedConcat(params: Params, d: nat, a: Template, b: Template)
    ensures DefinedAt(params, d, a + b) <==> DefinedAt(params, d, a) && DefinedAt(params, d, b)
    decreases |a|
  {
    if d == 0 {
      RefsConcat(a, b);
    } else if a == [] {
      assert a + b == b;
    } else {
      DefinedConcat(params, d, a[1..], b);
      assert (a + b)[1..] == a[1..] + b;
    }
  }

  lemma {:induction false} DefinedSubstitute(params: Params, d: nat, t: Template)
    requires AllDefined(params, t)
    ensures DefinedAt(params, d, Substitute(params, t)) <==> DefinedAt(params, d + 1, t)
    decreases |t|
  {
    if t == [] {
      assert Refs([]) == [];
    } else {
      assert forall k :: k in Refs(t[1..]) ==> k in Refs(t);
      DefinedSubstitute(params, d, t[1..]);
      var rest := Substitute(params, t[1..]);
      if t[0].Text? {
        DefinedConcat(params, d, [t[0]], rest);
        assert [t[0]][1..] == [] && Refs([]) == [];
      } else {
        assert Refs(t)[0] == t[0].key;
        DefinedConcat(params, d, params[t[0].key], rest);
      }
    }
  }

  // ----- How far the loop goes -----

  /** The first `m` depths have a reference in front, none of them twice, and only defined references. */
  ghost predicate Passes(params: Params, t: Template, m: nat) {
    && (forall d: nat :: d < m ==> Lead(params, d, t).Some? && DefinedAt(params, d, t))
    && (forall i: nat, j: nat :: i < j < m ==> Lead(params, i, t) != Lead(params, j, t))
  }

  /** What leads at depth `m` led before. */
  ghost predicate Repeats(params: Params, t: Template, m: nat) {
    Lead(params, m, t).Some? && exists i: nat :: i < m && Lead(params, i, t) == Lead(params, m, t)
  }

  /** What the value comes to when the first `m` depths have passed and the next one does not. */
  ghost predicate StopsWith(params: Params, t: Template, m: nat, r: Result) {
    && Passes(params, t, m)
    && match r
       case Value(_) => Lead(params, m, t).None?
       case Circular => Repeats(params, t, m)
       case Missing => Lead(params, m, t).Some? && !Repeats(params, t, m) && !DefinedAt(params, m, t)
  }

  /** There is one such depth and one such outcome. */
  lemma StopsOnce(params: Params, t: Template, m: nat, r: Result, n: nat, q: Result)
    requires StopsWith(params, t, m, r) && StopsWith(params, t, n, q)
    ensures m == n && r.Value? == q.Value? && r.Circular? == q.Circular?
  {
  }

  // ----- The loop -----

  /**
    `config_format` on a string value of parameter `key`, whose text and parameters are plain text with
    simple references. The loop runs at most once for each parameter. It returns exactly when the value
    expands and no key leads twice, and then what it returns is the expansion; otherwise the first depth
    that does not pass tells which error it is.
  */
  method ConfigFormat(key: string, value: string, params: map<string, string>) returns (r: Result, rounds: nat)
    requires Simple(value) && SimpleParams(params)
    ensures rounds <= |params.Keys|
    ensures LowerAll(value) in ["null", "none"] ==> r == Value("")
    ensures LowerAll(value) !in ["null", "none"] ==> StopsWith(ReadAll(params), Reading(value), rounds, r)
    ensures LowerAll(value) !in ["null", "none"] && r.Value? ==> r == Expand(ReadAll(params), Reading(value), {})
    ensures LowerAll(value) !in ["null", "none"] ==>
              (r.Value?
               <==> && Expand(ReadAll(params), Reading(value), {}).Value?
                    && DistinctLeads(ReadAll(params), Reading(value)))
    ensures r.Missing? ==> !Expand(ReadAll(params), Reading(value), {}).Value?
  {
    if LowerAll(value) == "null" || LowerAll(value) == "none" {
      return Value(""), 0;
    }
    ShowReading(value);
    ShowAllReadings(params);
    assert ReadAll(params).Keys == params.Keys;
    ghost var t;
    r, rounds, t := ReplaceReferences(key, value, params, ReadAll(params), Reading(value));
    LastRound(ReadAll(params), Reading(value), rounds, t, r);
    StopsMeaning(ReadAll(params), Reading(value), rounds, r);
  }

  /** The loop ends in round `rounds` on a value that spells `t`. */
  ghost predicate EndsOn(params: Params, value: Template, rounds: nat, t: Template, r: Result) {
    var leads, first := Leads(params, value, rounds), FirstRef(t);
    && Rounds(params, value, rounds) == Some(t) && |leads| == rounds && NoneTwice(leads)
    && match r
       case Value(text) => first.None? && text == Flat(t)
       case Circular => first.Some? && first.value in leads
       case Missing => first.Some? && first.value !in leads && !AllDefined(params, t)
  }

  /**
    The loop on a value and parameters that spell `v` and `ps`. The set of used references starts as the
    characters of `{key}`, which no reference ever equals.
  */
  method ReplaceReferences(key: string, value: string, params: map<string, string>, ghost ps: Params, ghost v: Template)
    returns (r: Result, rounds: nat, ghost t: Template)
    requires Plain(v) && PlainParams(ps) && value == Show(v) && params == ShowAll(ps)
    ensures rounds <= |ps.Keys| && EndsOn(ps, v, rounds, t, r)
  {
    rounds := 0;
    var s := value;
    t := v;  // what `s` spells
    var keydb: set<string> := set c | c in RefText(key) :: [c];
    ghost var leads: seq<string> := [];
    NothingUsed(key);
    while true
      invariant s == Show(t) && Plain(t)
      invariant Trail(ps, v, t, rounds, leads)
      invariant Used(keydb, leads)
      decreases |ps.Keys| - rounds
    {
      RoundOnText(params, ps, s, t);
      var found := Search(s);
      if found.None? {
        return Value(s), rounds, t;
      }
      ghost var first := FirstRef(t).value;
      if found.value in keydb {
        return Circular, rounds, t;
      }
      UsedMore(keydb, leads, first);
      keydb := keydb + {found.value};
      var formatted := Format(s, params);
      if formatted.KeyError? {
        return Missing, rounds, t;
      }
      OneRound(ps, v, t, rounds, leads);
      s := formatted.text;
      t := Substitute(ps, t);
      leads := leads + [first];
      rounds := rounds + 1;
    }
  }

  /** What `n` rounds of substitution make of a value, as long as every reference is defined. */
  ghost function Rounds(params: Params, value: Template, n: nat): Option<Template> {
    if n == 0 then Some(value)
    else
      var before := Rounds(params, value, n - 1);
      if before.Some? && AllDefined(params, before.value) then Some(Substitute(params, before.value)) else None
  }

  /** After the rounds the depths of `s` are the deeper ones of the value, and the shallower ones were defined. */
  ghost predicate After(params: Params, value: Template, s: Template, rounds: nat) {
    && (forall depth: nat :: ExpandTo(params, depth + rounds, value) == ExpandTo(params, depth, s))
    && (forall d: nat :: Lead(params, d + rounds, value) == Lead(params, d, s))
    && (forall d: nat :: DefinedAt(params, d + rounds, value) == DefinedAt(params, d, s))
    && (forall d: nat :: d < rounds ==> DefinedAt(params, d, value))
  }

  lemma {:induction false} AfterRounds(params: Params, value: Template, s: Template, rounds: nat)
    requires Rounds(params, value, rounds) == Some(s)
    ensures After(params, value, s, rounds)
    decreases rounds
  {
    if rounds > 0 {
      var before := Rounds(params, value, rounds - 1).value;
      AfterRounds(params, value, before, rounds - 1);
      AfterOneMore(params, value, before, rounds - 1);
    }
  }

  lemma AfterOneMore(params: Params, value: Template, s: Template, rounds: nat)
    requires After(params, value, s, rounds) && AllDefined(params, s)
    ensures After(params, value, Substitute(params, s), rounds + 1)
  {
    var s' := Substitute(params, s);
    assert DefinedAt(params, 0 + rounds, value) == DefinedAt(params, 0, s);
    forall d: nat
      ensures Lead(params, d + (rounds + 1), value) == Lead(params, d, s')
      ensures DefinedAt(params, d + (rounds + 1), value) == DefinedAt(params, d, s')
      ensures ExpandTo(params, d + (rounds + 1), value) == ExpandTo(params, d, s')
    {
      LeadSubstitute(params, d, s);
      DefinedSubstitute(params, d, s);
      SubstituteStep(params, d, s);
      assert Lead(params, (d + 1) + rounds, value) == Lead(params, d + 1, s);
      assert DefinedAt(params, (d + 1) + rounds, value) == DefinedAt(params, d + 1, s);
      assert ExpandTo(params, (d + 1) + rounds, value) == ExpandTo(params, d + 1, s);
    }
  }

  /** The references that led the first `n` rounds. */
  ghost function Leads(params: Params, value: Template, n: nat): seq<string> {
    if n == 0 then []
    else
      var last := Lead(params, n - 1, value);
      Leads(params, value, n - 1) + if last.Some? then [last.value] else []
  }

  ghost predicate NoneTwice(leads: seq<string>) { forall i, j :: 0 <= i < j < |leads| ==> leads[i] != leads[j] }

  lemma {:induction false} AtMostAll(leads: seq<string>, keys: set<string>)
    requires NoneTwice(leads) && forall k :: k in leads ==> k in keys
    ensures |leads| <= |keys|
  {
    if leads != [] {
      AtMostAll(leads[1..], keys - {leads[0]});
    }
  }

  lemma {:induction false} LeadsAtMost(params: Params, value: Template, n: nat)
    ensures |Leads(params, value, n)| <= n
    decreases n
  {
    if n > 0 {
      LeadsAtMost(params, value, n - 1);
    }
  }

  /** With as many references as rounds, each round had one. */
  lemma {:induction false} LeadsAre(params: Params, value: Template, n: nat, i: nat)
    requires |Leads(params, value, n)| == n && i < n
    ensures Lead(params, i, value) == Some(Leads(params, value, n)[i])
    decreases n
  {
    LeadsAtMost(params, value, n - 1);
    if i < n - 1 {
      LeadsAre(params, value, n - 1, i);
    }
  }

  lemma LeadOfRound(params: Params, value: Template, s: Template, rounds: nat)
    requires Rounds(params, value, rounds) == Some(s)
    ensures Lead(params, rounds, value) == FirstRef(s)
  {
    AfterRounds(params, value, s, rounds);
    assert Lead(params, 0 + rounds, value) == Lead(params, 0, s);
  }

  /** `leads` are the references that led the rounds so far, `t` is what the rounds have made. */
  ghost predicate Trail(params: Params, value: Template, t: Template, rounds: nat, leads: seq<string>) {
    && Rounds(params, value, rounds) == Some(t)
    && leads == Leads(params, value, rounds) && |leads| == rounds && NoneTwice(leads)
    && (forall k :: k in leads ==> k in params.Keys)
    && rounds <= |params.Keys|
  }

  lemma OneRound(params: Params, value: Template, s: Template, rounds: nat, leads: seq<string>)
    requires Trail(params, value, s, rounds, leads)
    requires AllDefined(params, s) && FirstRef(s).Some? && FirstRef(s).value !in leads
    ensures Trail(params, value, Substitute(params, s), rounds + 1, leads + [FirstRef(s).value])
  {
    LeadOfRound(params, value, s, rounds);
    assert FirstRef(s).value in Refs(s);
    AtMostAll(leads + [FirstRef(s).value], params.Keys);
  }

  /** The reference texts in `keydb` are those of `leads`. */
  ghost predicate Used(keydb: set<string>, leads: seq<string>) {
    forall k :: RefText(k) in keydb <==> k in leads
  }

  /** A reference is longer than one character. */
  lemma NothingUsed(key: string)
    ensures Used(set c | c in RefText(key) :: [c], [])
  {
    forall k
      ensures RefText(k) !in (set c | c in RefText(key) :: [c])
    {
      assert |RefText(k)| >= 2;
    }
  }

  lemma UsedMore(keydb: set<string>, leads: seq<string>, k: string)
    requires Used(keydb, leads)
    ensures Used(keydb + {RefText(k)}, leads + [k])
  {
    forall k' | RefText(k') == RefText(k)
      ensures k' == k
    {
      assert RefText(k')[1..|RefText(k')| - 1] == k' && RefText(k)[1..|RefText(k)| - 1] == k;
    }
  }

  lemma LeadsPass(params: Params, value: Template, m: nat)
    requires |Leads(params, value, m)| == m && NoneTwice(Leads(params, value, m))
    ensures forall i: nat :: i < m ==> Lead(params, i, value).Some?
    ensures forall i: nat :: i < m ==> Lead(params, i, value).value in Leads(params, value, m)
    ensures forall i: nat, j: nat :: i < j < m ==> Lead(params, i, value) != Lead(params, j, value)
  {
    forall i: nat | i < m
      ensures Lead(params, i, value) == Some(Leads(params, value, m)[i])
    {
      LeadsAre(params, value, m, i);
    }
  }

  /** What the loop ends on tells which depth it stops at, and a value is the expansion. */
  lemma LastRound(params: Params, value: Template, m: nat, s: Template, r: Result)
    requires EndsOn(params, value, m, s, r)
    ensures StopsWith(params, value, m, r)
    ensures r.Value? ==> r == Expand(params, value, {})
  {
    LeadsPass(params, value, m);
    LeadOfRound(params, value, s, m);
    AfterRounds(params, value, s, m);
    match r
    case Value(_) =>
      NoRefsFlat(params, 0, s);
      assert ExpandTo(params, 0 + m, value) == Some(Flat(s));
      ExpandsIff(params, value);
    case Circular =>
      LeadsAre(params, value, m, IndexOf(Leads(params, value, m), FirstRef(s).value));
    case Missing =>
      assert DefinedAt(params, 0 + m, value) == DefinedAt(params, 0, s);
  }

  lemma NoExpansion(params: Params, value: Template, s: Template, rounds: nat)
    requires After(params, value, s, rounds) && !AllDefined(params, s)
    ensures !Expand(params, value, {}).Value?
  {
    ExpandsIff(params, value);
    if depth: nat :| ExpandTo(params, depth, value).Some? {
      ExpandToMuchMore(params, depth, depth + rounds, value);
      UndefinedHasNoDepth(params, depth, s);
    }
  }

  // ----- What the outcomes mean -----

  /** Depths that pass are rounds that succeed. */
  lemma {:induction false} PassesRounds(params: Params, value: Template, m: nat)
    requires Passes(params, value, m)
    ensures Rounds(params, value, m).Some?
    decreases m
  {
    if m > 0 {
      PassesRounds(params, value, m - 1);
      var s := Rounds(params, value, m - 1).value;
      AfterRounds(params, value, s, m - 1);
      assert DefinedAt(params, 0 + (m - 1), value) == DefinedAt(params, 0, s);
    }
  }

  lemma NoLeadsLater(params: Params, value: Template, s: Template, rounds: nat)
    requires Rounds(params, value, rounds) == Some(s) && Refs(s) == []
    ensures forall j: nat :: j >= rounds ==> Lead(params, j, value).None?
  {
    AfterRounds(params, value, s, rounds);
    forall j: nat | j >= rounds
      ensures Lead(params, j, value).None?
    {
      NoRefsNoLead(params, j - rounds, s);
      assert Lead(params, (j - rounds) + rounds, value) == Lead(params, j - rounds, s);
    }
  }

  /** The loop returns a value exactly when it expands and no key leads twice. */
  lemma StopsMeaning(params: Params, value: Template, m: nat, r: Result)
    requires StopsWith(params, value, m, r)
    ensures r.Value? <==> Expand(params, value, {}).Value? && DistinctLeads(params, value)
    ensures r.Missing? ==> !Expand(params, value, {}).Value?
  {
    PassesRounds(params, value, m);
    var s := Rounds(params, value, m).value;
    LeadOfRound(params, value, s, m);
    match r
    case Value(_) =>
      NoLeadsLater(params, value, s, m);
      AfterRounds(params, value, s, m);
      NoRefsFlat(params, 0, s);
      assert ExpandTo(params, 0 + m, value) == Some(Flat(s));
      ExpandsIff(params, value);
    case Circular =>
      var i: nat :| i < m && Lead(params, i, value) == Lead(params, m, value);
    case Missing =>
      AfterRounds(params, value, s, m);
      assert DefinedAt(params, 0 + m, value) == DefinedAt(params, 0, s);
      NoExpansion(params, value, s, m);
  }

  // ----- How exact the circularity test is -----

  /** A value can be refused although nothing is circular: `{a}{b}` where b is `{a}`. */
  lemma FalseAlarm()
    ensures var params := map["a" := [Text("x")], "b" := [Ref("a")]];
            var value := [Ref("a"), Ref("b")];
            Expand(params, value, {}) == Value("xx") && !DistinctLeads(params, value)
  {
    var params: Params := map["a" := [Text("x")], "b" := [Ref("a")]];
    var value := [Ref("a"), Ref("b")];
    assert value[1..] == [Ref("b")] && [Ref("b")][1..] == [] && [Text("x")][1..] == [] && [Ref("a")][1..] == [];
    assert "x" + "" == "x" && "x" + "x" == "xx";
    assert ExpandTo(params, 0, []) == Some("");
    assert ExpandTo(params, 0, params["a"]) == Some("x");
    assert ExpandTo(params, 1, params["a"]) == Some("x");
    assert ExpandTo(params, 1, params["b"]) == Some("x");
    assert ExpandTo(params, 2, [Ref("b")]) == Some("x");
    assert ExpandTo(params, 2, value) == Some("xx");
    ExpandsIff(params, value);
    assert Lead(params, 0, value) == Some("a");
    assert Lead(params, 0, params["a"]).None?;
    assert Lead(params, 0, params["b"]) == Some("a");
    assert Lead(params, 1, [Ref("b")]) == Some("a");
    assert Lead(params, 1, value) == Some("a");
  }

  /** Every value holds at most one reference. */
  ghost predicate Chained(params: Params) { forall k :: k in params ==> |Refs(params[k])| <= 1 }

  lemma {:induction false} LeadOfSingle(params: Params, d: nat, t: Template)
    requires |Refs(t)| <= 1
    ensures Lead(params, d + 1, t)
            == if Refs(t) == [] || Refs(t)[0] !in params then None else Lead(params, d, params[Refs(t)[0]])
    decreases |t|
  {
    if t != [] {
      LeadOfSingle(params, d, t[1..]);
    }
  }

  /** In a chain, what leads after a key is determined by the key. */
  lemma {:induction false} LeadAfter(params: Params, i: nat, d: nat, t: Template)
    requires Chained(params) && |Refs(t)| <= 1
    requires Lead(params, i, t).Some?
    ensures var k := Lead(params, i, t).value;
            Lead(params, i + d + 1, t) == if k !in params then None else Lead(params, d, params[k])
    decreases i
  {
    LeadOfSingle(params, i + d, t);
    if i > 0 {
      LeadOfSingle(params, i - 1, t);
      LeadAfter(params, i - 1, d, params[Refs(t)[0]]);
    }
  }

  lemma {:induction false} DeepEnoughNoLead(params: Params, depth: nat, d: nat, t: Template)
    requires ExpandTo(params, depth, t).Some? && depth <= d
    ensures Lead(params, d, t).None?
    decreases depth, |t|
  {
    if t != [] {
      DeepEnoughNoLead(params, depth, d, t[1..]);
      if t[0].Ref? {
        DeepEnoughNoLead(params, depth - 1, d - 1, params[t[0].key]);
      }
    } else {
      assert Refs(t) == [];
    }
  }

  /** A key that led twice in a chain leads again and again. */
  lemma {:induction false} LeadsForever(params: Params, t: Template, i: nat, period: nat, m: nat)
    requires Chained(params) && |Refs(t)| <= 1 && period > 0
    requires Lead(params, i, t).Some? && Lead(params, i + period, t) == Lead(params, i, t)
    ensures Lead(params, i + m * period, t) == Lead(params, i, t)
    decreases m
  {
    if m > 0 {
      LeadsForever(params, t, i, period, m - 1);
      var j := i + (m - 1) * period;
      assert i + m * period == j + (period - 1) + 1;
      LeadAfter(params, j, period - 1, t);
      LeadAfter(params, i, period - 1, t);
    }
  }

  /** When every value holds at most one reference, a value is returned exactly when it expands. */
  lemma ChainsAreExact(params: Params, t: Template)
    requires Chained(params) && |Refs(t)| <= 1 && Expand(params, t, {}).Value?
    ensures DistinctLeads(params, t)
  {
    RecursiveToDepth(params, t, {});
    var depth := |params.Keys - {}|;
    forall i: nat, j: nat | i < j && Lead(params, i, t).Some? && Lead(params, j, t).Some?
      ensures Lead(params, i, t) != Lead(params, j, t)
    {
      if Lead(params, i, t) == Lead(params, j, t) {
        LeadsForever(params, t, i, j - i, depth);
        GrowsPast(depth, j - i);
        DeepEnoughNoLead(params, depth, i + depth * (j - i), t);
      }
    }
  }

  lemma GrowsPast(m: nat, period: nat)
    requires period > 0
    ensures m * period >= m
  {
  }
}
