/**
  The evaluator of custom ACL rules. The program rewrites the text of a rule, with numbered
  placeholders for its groups, and evaluates the rewritten text. Here that evaluation is shown
  to equal one that walks the rule directly.
*/
module AclPattern {
  import opened Strings
  import opened AclClauses
  import opened AclTokens

  // ----- Direct evaluation -----

  /** Parts that must all be accepted: the first other outcome stands. */
  function AllOf<T>(parts: seq<seq<T>>, leaf: seq<T> -> Outcome): Outcome {
    if parts == [] then Accepted
    else if leaf(parts[0]).Accepted? then AllOf(parts[1..], leaf)
    else leaf(parts[0])
  }

  /** Alternatives: rejection moves on to the next one, an exception does not. */
  function AnyOf<T(==)>(alts: seq<seq<T>>, comma: T, leaf: seq<T> -> Outcome): Outcome {
    if alts == [] then Raised
    else
      var o := AllOf(Split(alts[0], comma), leaf);
      if o.Rejected? then AnyOf(alts[1..], comma, leaf) else o
  }

  function OrOfAnds<T(==)>(s: seq<T>, bar: T, comma: T, leaf: seq<T> -> Outcome): Outcome {
    AnyOf(Split(s, bar), comma, leaf)
  }

  const BAR := Ch('|')
  const COMMA := Ch(',')

  predicate Compound(text: string) { '|' in text || ',' in text }

  function ClauseTest(validators: map<string, Validator>, mode: Mode): string -> Outcome {
    c => TestClause(validators, mode, c)
  }

  /** A group: its own little rule when it has separators, else a single clause. */
  function GroupOutcome(validators: map<string, Validator>, mode: Mode, text: string): Outcome {
    if Compound(text) then OrOfAnds(text, '|', ',', ClauseTest(validators, mode))
    else TestClause(validators, mode, text)
  }

  /** What stands between separators: one whole group, a clause, or a forbidden mixture. */
  function AtomOutcome(validators: map<string, Validator>, mode: Mode, atom: seq<Token>): Outcome {
    if Groups(atom) == [] then TestClause(validators, mode, Show(atom))
    else if |atom| == 1 && atom[0].Grp? then GroupOutcome(validators, mode, atom[0].text)
    else Raised
  }

  function AtomTest(validators: map<string, Validator>, mode: Mode): seq<Token> -> Outcome {
    a => AtomOutcome(validators, mode, a)
  }

  /** The outcome of a whole rule, read directly. */
  function Evaluate(validators: map<string, Validator>, mode: Mode, ts: seq<Token>): Outcome {
    OrOfAnds(ts, BAR, COMMA, AtomTest(validators, mode))
  }

  // ----- Splitting the rewritten text is splitting the tokens -----

  /** The number of the first group of part `i`. */
  function OffsetAt(parts: seq<seq<Token>>, n: nat, i: nat): nat
    requires i < |parts|
  {
    if i == 0 then n else OffsetAt(parts[1..], n + |Groups(parts[0])|, i - 1)
  }

  /** `text` is `part` with its groups, numbered from `n`, taken out into the table. */
  ghost predicate Rewrites(text: string, part: seq<Token>, n: nat, table: map<nat, string>) {
    Plain(part) && text == ShowRef(part, n) && Covers(table, part, n)
  }

  /** Each part of the rewritten text is the rewriting of a part of the rule. */
  ghost predicate SameParts(texts: seq<string>, parts: seq<seq<Token>>, n: nat, table: map<nat, string>) {
    && |texts| == |parts|
    && forall i :: 0 <= i < |parts| ==> Rewrites(texts[i], parts[i], OffsetAt(parts, n, i), table)
  }

  /** A longer first part shifts the numbers of the others. */
  lemma OffsetsShift(first: seq<Token>, first': seq<Token>, rest: seq<seq<Token>>, n: nat, n': nat)
    requires n + |Groups(first)| == n' + |Groups(first')|
    ensures forall i :: 1 <= i < |rest| + 1 ==> OffsetAt([first] + rest, n, i) == OffsetAt([first'] + rest, n', i)
  {
    assert ([first] + rest)[1..] == rest && ([first'] + rest)[1..] == rest;
  }

  /** The first part may be replaced by a longer one. */
  lemma ReplaceFirstPart(x: string, p: seq<Token>, n: nat, x': string, p': seq<Token>, n': nat,
                         texts: seq<string>, parts: seq<seq<Token>>, table: map<nat, string>)
    requires SameParts([x] + texts, [p] + parts, n, table)
    requires Rewrites(x', p', n', table)
    requires n + |Groups(p)| == n' + |Groups(p')|
    ensures SameParts([x'] + texts, [p'] + parts, n', table)
  {
    OffsetsShift(p, p', parts, n, n');
    forall i | 0 <= i < |parts| + 1
      ensures Rewrites(([x'] + texts)[i], ([p'] + parts)[i], OffsetAt([p'] + parts, n', i), table)
    {
      if i > 0 {
        assert Rewrites(([x] + texts)[i], ([p] + parts)[i], OffsetAt([p] + parts, n, i), table);
      }
    }
  }

  /** The number of the first group after token `t`. */
  function After(t: Token, n: nat): nat { if t.Ch? then n else n + 1 }

  lemma PrependToken(t: Token, part: seq<Token>, n: nat, table: map<nat, string>)
    requires Covers(table, part, After(t, n)) && (t.Grp? ==> n in table && table[n] == t.text)
    ensures Covers(table, [t] + part, n)
    ensures ShowRef([t] + part, n) == ShowRef([t], n) + ShowRef(part, After(t, n))
    ensures n + |Groups([t] + part)| == After(t, n) + |Groups(part)|
  {
    assert ([t] + part)[1..] == part && [t][1..] == [];
  }

  /** A token other than the separator goes to the front of the first part. */
  lemma ExtendFirstPart(t: Token, texts: seq<string>, parts: seq<seq<Token>>, n: nat, table: map<nat, string>)
    requires PlainToken(t) && |parts| >= 1
    requires SameParts(texts, parts, After(t, n), table)
    requires t.Grp? ==> n in table && table[n] == t.text
    ensures SameParts([ShowRef([t], n) + texts[0]] + texts[1..], [[t] + parts[0]] + parts[1..], n, table)
  {
    PrependToken(t, parts[0], n, table);
    assert parts == [parts[0]] + parts[1..] && texts == [texts[0]] + texts[1..];
    ReplaceFirstPart(texts[0], parts[0], After(t, n), ShowRef([t], n) + texts[0], [t] + parts[0], n,
                     texts[1..], parts[1..], table);
  }

  lemma EmptyFirstPart(texts: seq<string>, parts: seq<seq<Token>>, n: nat, table: map<nat, string>)
    requires SameParts(texts, parts, n, table)
    ensures SameParts([[]] + texts, [[]] + parts, n, table)
  {
    assert ([[]] + parts)[1..] == parts;
    forall i | 0 <= i < |parts| + 1
      ensures OffsetAt([[]] + parts, n, i) == if i == 0 then n else OffsetAt(parts, n, i - 1)
    {
    }
  }

  lemma TokenHasNoSeparator(t: Token, n: nat, sep: char)
    requires PlainToken(t) && t != Ch(sep) && sep in ['|', ',']
    ensures sep !in ShowRef([t], n)
  {
    assert [t][1..] == [];
    assert forall c :: c in Dec(n) ==> IsDigit(c);
  }

  lemma {:induction false} SplitRewritten(ts: seq<Token>, n: nat, sep: char, table: map<nat, string>)
    requires Plain(ts) && Covers(table, ts, n)
    requires sep in ['|', ',']
    ensures SameParts(Split(ShowRef(ts, n), sep), Split(ts, Ch(sep)), n, table)
  {
    if ts != [] {
      var t, rest := ts[0], ts[1..];
      var m := After(t, n);
      assert PlainToken(t);
      SplitRewritten(rest, m, sep, table);
      var texts, parts := Split(ShowRef(rest, m), sep), Split(rest, Ch(sep));
      if t == Ch(sep) {
        assert ShowRef(ts, n)[1..] == ShowRef(rest, m);
        EmptyFirstPart(texts, parts, n, table);
      } else {
        TokenHasNoSeparator(t, n, sep);
        assert ts == [t] + rest;
        PrependToken(t, rest, n, table);
        SplitPrefix(ShowRef([t], n), ShowRef(rest, m), sep);
        ExtendFirstPart(t, texts, parts, n, table);
      }
    }
  }

  // ----- One atom of the rewritten text -----

  /** The at-signs of a text tell how many groups its tokens hold. */
  lemma {:induction false} AtSigns(ts: seq<Token>, n: nat)
    requires Plain(ts)
    ensures Count(ShowRef(ts, n), '@') == 2 * |Groups(ts)|
  {
    if ts != [] {
      assert PlainToken(ts[0]);
      AtSigns(ts[1..], if ts[0].Ch? then n else n + 1);
      if ts[0].Grp? {
        assert forall c :: c in Dec(n) ==> IsDigit(c);
        CountZero(Dec(n), '@');
        CountConcat("@" + Dec(n), "@", '@');
        CountConcat("@", Dec(n), '@');
        CountConcat(Placeholder(n), ShowRef(ts[1..], n + 1), '@');
        assert Count("@", '@') == 1 + Count("", '@') by {
          assert "@"[1..] == "";
        }
      }
    }
  }

  predicate EndsInAt(s: string) { s != "" && s[|s| - 1] == '@' }

  lemma {:induction false} LastToken(ts: seq<Token>, n: nat)
    requires Plain(ts) && EndsInAt(ShowRef(ts, n))
    ensures ts != [] && ts[|ts| - 1].Grp?
  {
    if |ts| == 1 {
      assert PlainToken(ts[0]);
      assert ts[1..] == [] && ShowRef([], n) == "";
    } else {
      var m := if ts[0].Ch? then n else n + 1;
      assert ShowRef(ts[1..], m) != "";
      LastToken(ts[1..], m);
    }
  }

  /** The evaluator's test for a whole group: at-signs at both ends and nowhere else. */
  predicate LoneReference(text: string) {
    text != "" && text[0] == '@' && EndsInAt(text) && Count(text, '@') == 2
  }

  lemma TwoGroups(atom: seq<Token>)
    requires |atom| >= 2 && atom[0].Grp? && atom[|atom| - 1].Grp?
    ensures |Groups(atom)| >= 2
  {
    var init, last := atom[..|atom| - 1], [atom[|atom| - 1]];
    assert atom == init + last && last[1..] == [];
    GroupsConcat(init, last);
  }

  lemma LoneReferenceIff(atom: seq<Token>, n: nat)
    requires Plain(atom) && Groups(atom) != []
    ensures '@' in ShowRef(atom, n)
    ensures LoneReference(ShowRef(atom, n)) <==> |atom| == 1
    ensures |atom| == 1 ==> atom[0].Grp? && ShowRef(atom, n) == Placeholder(n)
  {
    var s := ShowRef(atom, n);
    AtSigns(atom, n);
    CountZero(s, '@');
    assert PlainToken(atom[0]);
    if |atom| == 1 {
      assert atom[1..] == [];
      assert s == Placeholder(n);
    } else if LoneReference(s) {
      LastToken(atom, n);
      assert atom[0].Grp?;
      TwoGroups(atom);
    }
  }

  /** The number between the at-signs finds the group. */
  lemma ReferenceFindsGroup(atom: seq<Token>, n: nat, table: map<nat, string>)
    requires |atom| == 1 && atom[0].Grp? && Covers(table, atom, n)
    ensures var text := ShowRef(atom, n);
            |text| >= 2 && ParseInt(text[1..|text| - 1]) == Some(n) && n in table && table[n] == atom[0].text
  {
    assert atom[1..] == [];
    assert ShowRef(atom, n) == Placeholder(n) + ShowRef([], n + 1);
    var text := Placeholder(n);
    assert ShowRef(atom, n) == text;
    assert text[1..|text| - 1] == DecInt(n);
    IntRoundTrip(n);
  }

  lemma NoGroupsNoAt(atom: seq<Token>, n: nat)
    requires Plain(atom) && Groups(atom) == []
    ensures '@' !in ShowRef(atom, n) && ShowRef(atom, n) == Show(atom)
  {
    AtSigns(atom, n);
    CountZero(ShowRef(atom, n), '@');
    GroupFree(atom, n);
  }

  // ----- Rules without groups -----

  function Plainly(s: string): seq<Token> { seq(|s|, i requires 0 <= i < |s| => Ch(s[i])) }

  lemma {:induction false} TokenizePlain(s: string)
    requires PlainText(s)
    ensures Tokenize(s) == Plainly(s) && Groups(Plainly(s)) == [] && Show(Plainly(s)) == s
    ensures Plain(Plainly(s)) && BalancedFrom(s, false)
  {
    if s == "" {
      assert Plainly(s) == [];
    } else {
      var rest := s[1..];
      assert s == [s[0]] + rest;
      assert s[0] in s && PlainChar(s[0]);
      TokenizePlain(rest);
      assert Plainly(s) == [Ch(s[0])] + Plainly(rest);
      assert Plainly(s)[1..] == Plainly(rest);
      ShowCons(Ch(s[0]), Plainly(rest));
    }
  }

  ghost predicate PlainParts(texts: seq<string>, parts: seq<seq<Token>>) {
    |texts| == |parts| && forall i :: 0 <= i < |parts| ==> parts[i] == Plainly(texts[i])
  }

  lemma {:induction false} SplitPlain(s: string, sep: char)
    ensures PlainParts(Split(s, sep), Split(Plainly(s), Ch(sep)))
  {
    if s != "" {
      SplitPlain(s[1..], sep);
      assert Plainly(s)[1..] == Plainly(s[1..]);
      var texts, parts := Split(s[1..], sep), Split(Plainly(s[1..]), Ch(sep));
      if s[0] == sep {
        assert PlainParts([[]] + texts, [[]] + parts);
      } else {
        assert [Ch(s[0])] + parts[0] == Plainly([s[0]] + texts[0]);
        assert PlainParts([[s[0]] + texts[0]] + texts[1..], [[Ch(s[0])] + parts[0]] + parts[1..]);
      }
    }
  }

  /** Alternatives made of equal parts have equal outcomes. */
  lemma {:induction false} AllOfCongruent<A, B>(xs: seq<seq<A>>, f: seq<A> -> Outcome,
                                                ys: seq<seq<B>>, g: seq<B> -> Outcome)
    requires |xs| == |ys| && forall i :: 0 <= i < |xs| ==> f(xs[i]) == g(ys[i])
    ensures AllOf(xs, f) == AllOf(ys, g)
  {
    if xs != [] {
      AllOfCongruent(xs[1..], f, ys[1..], g);
    }
  }

  lemma {:induction false} AnyOfPlain(validators: map<string, Validator>, mode: Mode, texts: seq<string>,
                                      parts: seq<seq<Token>>)
    requires PlainParts(texts, parts)
    requires forall t :: t in texts ==> PlainText(t)
    ensures AnyOf(texts, ',', ClauseTest(validators, mode)) == AnyOf(parts, COMMA, AtomTest(validators, mode))
  {
    if texts != [] {
      AnyOfPlain(validators, mode, texts[1..], parts[1..]);
      assert PlainText(texts[0]);
      SplitPlain(texts[0], ',');
      var xs, ys := Split(texts[0], ','), Split(parts[0], COMMA);
      forall i | 0 <= i < |xs|
        ensures ClauseTest(validators, mode)(xs[i]) == AtomTest(validators, mode)(ys[i])
      {
        SplitElements(texts[0], ',', i);
        TokenizePlain(xs[i]);
      }
      AllOfCongruent(xs, ClauseTest(validators, mode), ys, AtomTest(validators, mode));
    }
  }

  /** A group evaluates as the rule it would be on its own. */
  lemma GroupIsRule(validators: map<string, Validator>, mode: Mode, text: string)
    requires PlainText(text) && Compound(text)
    ensures Evaluate(validators, mode, Tokenize(text)) == GroupOutcome(validators, mode, text)
  {
    TokenizePlain(text);
    SplitPlain(text, '|');
    forall t | t in Split(text, '|')
      ensures PlainText(t)
    {
      var i :| 0 <= i < |Split(text, '|')| && Split(text, '|')[i] == t;
      SplitElements(text, '|', i);
    }
    AnyOfPlain(validators, mode, Split(text, '|'), Split(Plainly(text), BAR));
  }

  // ----- The evaluator -----

  lemma ExtractionDone(done: seq<Token>, todo: seq<Token>, table: map<nat, string>)
    requires Plain(done) && '(' !in ShowRef(done, 0) + Show(todo)
    requires done != [] ==> table == Numbered(Groups(done))
    ensures ShowRef(done + todo, 0) == ShowRef(done, 0) + Show(todo)
    ensures Groups(done + todo) == Groups(done)
    ensures Covers(table, done + todo, 0)
  {
    AllExtracted(done, todo);
    if done == [] {
      NoGroupsCovered(table, done + todo, 0);
    } else {
      NumberedCovers([], done + todo);
      assert [] + Groups(done + todo) == Groups(done);
    }
  }

  lemma NothingExtracted(ts: seq<Token>)
    ensures [] + ts == ts && ShowRef([], 0) + Show(ts) == Show(ts) && Numbered(Groups([])) == map[]
  {
  }

  lemma GroupCloses(clause: string, done: seq<Token>, todo: seq<Token>)
    requires Plain(done) && Plain(todo)
    requires clause == ShowRef(done, 0) + Show(todo) && '(' in clause
    ensures ')' in clause && IndexOf(clause, '(') < IndexOf(clause, ')')
  {
    ShowRefHasNoParens(done, 0);
    var head, t, tail := NextGroup(todo);
    ExtractFirst(done, head, t, tail);
    CutFirst(ShowRef(done + head, 0), t.text, Show(tail));
  }

  /** One turn of the rewriting loop: what it cuts, what it leaves, and the table it makes. */
  lemma {:induction false} OneTurn(clause: string, done: seq<Token>, todo: seq<Token>, table: map<nat, string>,
                                   start: nat, end: nat)
    returns (done': seq<Token>, todo': seq<Token>)
    requires Plain(done) && Plain(todo) && table == Numbered(Groups(done))
    requires clause == ShowRef(done, 0) + Show(todo) && '(' in clause && ')' in clause
    requires start == IndexOf(clause, '(') + 1 && end == IndexOf(clause, ')') && start <= end
    ensures done' + todo' == done + todo && Plain(done') && Plain(todo')
    ensures done' != [] && |todo'| < |todo|
    ensures clause[..start - 1] + Placeholder(|table|) + clause[end + 1..] == ShowRef(done', 0) + Show(todo')
    ensures table[|table| := clause[start..end]] == Numbered(Groups(done'))
  {
    ShowRefHasNoParens(done, 0);
    var head, t, tail := NextGroup(todo);
    done', todo' := (done + head) + [t], tail;
    assert done' + todo' == done + todo by {
      Regroup(done, head, [t], tail);
    }
    assert Plain(done') by {
      PlainAppend(done, head, t);
    }
    TurnParts(clause, done, head, t, tail, start, end);
    TurnNumbers(done, head, t);
    TurnText(clause, start, end, ShowRef(done + head, 0), Placeholder(|table|), Show(tail));
  }

  /** What a turn makes of the text, from its parts. */
  lemma TurnText(clause: string, start: nat, end: nat, before: string, placeholder: string, after: string)
    requires 0 < start <= end < |clause| && clause[..start - 1] == before && clause[end + 1..] == after
    ensures clause[..start - 1] + placeholder + clause[end + 1..] == (before + placeholder) + after
  {
  }

  lemma CutText(clause: string, a: string, g: string, rest: string, start: nat, end: nat)
    requires '(' !in a && ')' !in a && PlainText(g)
    requires clause == a + ShowToken(Grp(g)) + rest && '(' in clause && ')' in clause
    requires start == IndexOf(clause, '(') + 1 && end == IndexOf(clause, ')')
    ensures start <= end && clause[..start - 1] == a && clause[start..end] == g && clause[end + 1..] == rest
  {
    CutFirst(a, g, rest);
  }

  /** The three parts of the text that a turn works on. */
  lemma {:induction false} TurnParts(clause: string, done: seq<Token>, head: seq<Token>, t: Token, tail: seq<Token>,
                                     start: nat, end: nat)
    requires Plain(done) && Plain(head) && t.Grp? && PlainToken(t) && Groups(head) == []
    requires clause == ShowRef(done, 0) + Show(head + ([t] + tail)) && '(' in clause && ')' in clause
    requires start == IndexOf(clause, '(') + 1 && end == IndexOf(clause, ')')
    ensures start <= end
    ensures clause[..start - 1] == ShowRef(done + head, 0)
    ensures clause[start..end] == t.text
    ensures clause[end + 1..] == Show(tail)
  {
    ExtractFirst(done, head, t, tail);
    CutText(clause, ShowRef(done + head, 0), t.text, Show(tail), start, end);
  }

  /** The placeholder and the table entry that a turn adds. */
  lemma {:induction false} TurnNumbers(done: seq<Token>, head: seq<Token>, t: Token)
    requires Plain(done) && Plain(head) && t.Grp? && Groups(head) == []
    ensures var table := Numbered(Groups(done));
            && ShowRef(done + head, 0) + Placeholder(|table|) == ShowRef((done + head) + [t], 0)
            && table[|table| := t.text] == Numbered(Groups((done + head) + [t]))
  {
    ExtractFirst(done, head, t, []);
    NumberedAppend(Groups(done), t.text);
    NumberedSize(Groups(done));
  }

  lemma {:induction false} NoGroupsCovered(table: map<nat, string>, ts: seq<Token>, n: nat)
    requires Groups(ts) == []
    ensures Covers(table, ts, n)
  {
    if ts != [] {
      NoGroupsCovered(table, ts[1..], n);
    }
  }

  lemma {:induction false} FewerGroups(ts: seq<Token>, sep: Token, i: nat)
    requires i < |Split(ts, sep)|
    ensures |Groups(Split(ts, sep)[i])| <= |Groups(ts)|
  {
    if ts != [] {
      var parts := Split(ts[1..], sep);
      if ts[0] == sep {
        if i > 0 {
          FewerGroups(ts[1..], sep, i - 1);
        }
      } else {
        FewerGroups(ts[1..], sep, i);
        assert ([ts[0]] + parts[0])[1..] == parts[0];
      }
    }
  }

  /**
    `_split_and_test_clause` with the group table it fills and passes on to its recursive calls.
  */
  class PatternRun {
    const validators: map<string, Validator>
    const mode: Mode
    var groups: map<nat, string>

    constructor (validators: map<string, Validator>, mode: Mode)
      ensures this.validators == validators && this.mode == mode && groups == map[]
    {
      this.validators, this.mode, groups := validators, mode, map[];
    }

    /** The rewriting loop: groups move into the table, placeholders stay behind. */
    method ExtractGroups(rule: string) returns (clause: string)
      requires BalancedFrom(rule, false) && '@' !in rule
      requires groups == map[] || '(' !in rule
      modifies this`groups
      ensures clause == ShowRef(Tokenize(rule), 0)
      ensures Covers(groups, Tokenize(rule), 0)
      ensures '(' !in rule ==> groups == old(groups)
      ensures old(groups) == map[] ==> groups == Numbered(Groups(Tokenize(rule)))
    {
      TokensOfBalanced(rule);
      clause := rule;
      ghost var done, todo := [], Tokenize(rule);
      NothingExtracted(todo);
      while '(' in clause
        invariant done + todo == Tokenize(rule) && Plain(done) && Plain(todo)
        invariant clause == ShowRef(done, 0) + Show(todo)
        invariant done == [] ==> clause == rule && groups == old(groups)
        invariant done != [] ==> '(' in rule && groups == Numbered(Groups(done))
        decreases |todo|
      {
        GroupCloses(clause, done, todo);
        var pos := |groups|;
        var start := IndexOf(clause, '(') + 1;
        var end := IndexOf(clause, ')');
        ghost var done', todo' := OneTurn(clause, done, todo, groups, start, end);
        groups := groups[pos := clause[start..end]];
        clause := clause[..start - 1] + Placeholder(pos) + clause[end + 1..];
        done, todo := done', todo';
      }
      ExtractionDone(done, todo, groups);
    }

    /** One part between separators, as the rewritten text shows it. */
    method TestAtom(text: string, ghost atom: seq<Token>, ghost n: nat) returns (o: Outcome)
      requires Plain(atom) && text == ShowRef(atom, n) && Covers(groups, atom, n)
      requires !Compound(text)
      modifies this`groups
      ensures groups == old(groups)
      ensures o == AtomOutcome(validators, mode, atom)
      decreases |Groups(atom)|, 0
    {
      var clause := text;
      if '@' in clause {
        if Groups(atom) == [] {
          NoGroupsNoAt(atom, n);
        }
        LoneReferenceIff(atom, n);
        if clause[0] != '@' || clause[|clause| - 1] != '@' || Count(clause, '@') != 2 {
          return Raised;
        }
        ReferenceFindsGroup(atom, n, groups);
        clause := groups[ParseInt(clause[1..|clause| - 1]).value];
      } else {
        if Groups(atom) != [] {
          LoneReferenceIff(atom, n);
        }
        NoGroupsNoAt(atom, n);
      }
      if '|' in clause || ',' in clause {
        assert PlainToken(atom[0]);
        assert atom[1..] == [];
        assert Groups(atom) == [clause];
        TokenizePlain(clause);
        o := SplitAndTest(clause);
        GroupIsRule(validators, mode, clause);
      } else {
        o := TestClause(validators, mode, clause);
      }
    }

    /** One alternative: its parts in turn, up to the first that is not accepted. */
    method TestAlternative(text: string, ghost alt: seq<Token>, ghost n: nat) returns (o: Outcome)
      requires Plain(alt) && text == ShowRef(alt, n) && Covers(groups, alt, n) && '|' !in text
      modifies this`groups
      ensures groups == old(groups)
      ensures o == AllOf(Split(alt, COMMA), AtomTest(validators, mode))
      decreases |Groups(alt)|, 1
    {
      SplitRewritten(alt, n, ',', groups);
      var andClauses := Split(text, ',');
      ghost var atoms, leaf := Split(alt, COMMA), AtomTest(validators, mode);
      var j := 0;
      while j < |andClauses|
        invariant 0 <= j <= |andClauses|
        invariant groups == old(groups)
        invariant AllOf(atoms, leaf) == AllOf(atoms[j..], leaf)
      {
        assert andClauses[j] in andClauses;
        SplitElements(text, ',', j);
        FewerGroups(alt, COMMA, j);
        o := TestAtom(andClauses[j], atoms[j], OffsetAt(atoms, n, j));
        if !o.Accepted? {
          return;
        }
        j := j + 1;
      }
      o := Accepted;
    }

    method SplitAndTest(rule: string) returns (o: Outcome)
      requires BalancedFrom(rule, false) && '@' !in rule
      requires groups == map[] || '(' !in rule
      modifies this`groups
      ensures o == Evaluate(validators, mode, Tokenize(rule))
      ensures '(' !in rule ==> groups == old(groups)
      ensures old(groups) == map[] ==> groups == Numbered(Groups(Tokenize(rule)))
      decreases |Groups(Tokenize(rule))|, 2
    {
      var clause := ExtractGroups(rule);
      ghost var ts, leaf := Tokenize(rule), AtomTest(validators, mode);
      TokensOfBalanced(rule);
      SplitRewritten(ts, 0, '|', groups);
      var orClauses := Split(clause, '|');
      ghost var alts := Split(ts, BAR);
      ghost var filled := groups;
      for i := 0 to |orClauses|
        invariant groups == filled
        invariant AnyOf(alts, COMMA, leaf) == AnyOf(alts[i..], COMMA, leaf)
      {
        assert orClauses[i] in orClauses;
        FewerGroups(ts, BAR, i);
        o := TestAlternative(orClauses[i], alts[i], OffsetAt(alts, 0, i));
        if !o.Rejected? {
          return;
        }
      }
      o := Raised;
    }
  }
}
