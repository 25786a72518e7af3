/**
  How a custom ACL rule is cut into characters and parenthesised groups, and how the
  evaluator rewrites each group into a numbered placeholder.
*/
module AclTokens {
  import opened Strings

  /** A rule read from left to right: a plain character, or a whole `( ... )`. */
  datatype Token = Ch(c: char) | Grp(text: string)

  predicate PlainChar(c: char) { c !in ['(', ')', '@'] }

  predicate PlainText(s: string) { forall c :: c in s ==> PlainChar(c) }

  predicate PlainToken(t: Token) { if t.Ch? then PlainChar(t.c) else PlainText(t.text) }

  predicate Plain(ts: seq<Token>) { forall t :: t in ts ==> PlainToken(t) }

  // ----- Balanced parentheses -----

  function Depth(s: string): int { Count(s, '(') - Count(s, ')') }

  /** The depth stays between 0 and 1 and ends at 0. */
  ghost predicate Balanced(s: string) {
    (forall k :: 0 <= k <= |s| ==> 0 <= Depth(s[..k]) <= 1) && Depth(s) == 0
  }

  /** The same, read one character at a time. */
  predicate BalancedFrom(s: string, open: bool) {
    if s == "" then !open
    else if s[0] == '(' then !open && BalancedFrom(s[1..], true)
    else if s[0] == ')' then open && BalancedFrom(s[1..], false)
    else BalancedFrom(s[1..], open)
  }

  function DepthOf(open: bool): int { if open then 1 else 0 }

  ghost predicate DepthsFrom(s: string, d: int) {
    (forall k :: 0 <= k <= |s| ==> 0 <= d + Depth(s[..k]) <= 1) && d + Depth(s) == 0
  }

  lemma DepthsStep(s: string, d: int)
    requires s != "" && 0 <= d <= 1
    ensures DepthsFrom(s, d) <==> 0 <= d + Depth([s[0]]) <= 1 && DepthsFrom(s[1..], d + Depth([s[0]]))
  {
    var h := Depth([s[0]]);
    forall k | 1 <= k <= |s|
      ensures Depth(s[..k]) == h + Depth(s[1..][..k - 1])
    {
      assert s[..k] == [s[0]] + s[1..][..k - 1];
      CountConcat([s[0]], s[1..][..k - 1], '(');
      CountConcat([s[0]], s[1..][..k - 1], ')');
    }
    assert s[..|s|] == s && s[1..][..|s| - 1] == s[1..];
    assert Depth(s[..0]) == 0;
    if DepthsFrom(s, d) {
      forall k | 0 <= k <= |s| - 1
        ensures 0 <= d + h + Depth(s[1..][..k]) <= 1
      {
        assert Depth(s[..k + 1]) == h + Depth(s[1..][..k + 1 - 1]);
      }
      assert Depth(s[..1]) == h + Depth(s[1..][..0]);
    }
    if 0 <= d + h <= 1 && DepthsFrom(s[1..], d + h) {
      forall k | 0 <= k <= |s|
        ensures 0 <= d + Depth(s[..k]) <= 1
      {
        if k != 0 {
          assert Depth(s[..k]) == h + Depth(s[1..][..k - 1]);
        }
      }
    }
  }

  lemma {:induction false} DepthsRecursive(s: string, open: bool)
    ensures DepthsFrom(s, DepthOf(open)) <==> BalancedFrom(s, open)
  {
    if s == "" {
      assert s[..0] == "";
      assert Depth("") == 0;
    } else {
      DepthsStep(s, DepthOf(open));
      assert [s[0]][1..] == "";
      assert Count("", '(') == Count("", ')') == 0;
      if s[0] == '(' {
        DepthsRecursive(s[1..], true);
      } else if s[0] == ')' {
        DepthsRecursive(s[1..], false);
      } else {
        DepthsRecursive(s[1..], open);
      }
    }
  }

  lemma BalancedRecursive(s: string)
    ensures Balanced(s) <==> BalancedFrom(s, false)
  {
    DepthsRecursive(s, false);
  }

  // ----- Tokens -----

  function Tokenize(s: string): seq<Token>
    decreases |s|
  {
    if s == "" then []
    else if s[0] == '(' && ')' in s then
      var i := IndexOf(s, ')');
      [Grp(s[1..i])] + Tokenize(s[i + 1..])
    else [Ch(s[0])] + Tokenize(s[1..])
  }

  function ShowToken(t: Token): string { if t.Ch? then [t.c] else "(" + t.text + ")" }

  /** The text of a rule. */
  function Show(ts: seq<Token>): string {
    if ts == [] then "" else ShowToken(ts[0]) + Show(ts[1..])
  }

  /** The texts of the groups, in order. */
  function Groups(ts: seq<Token>): seq<string> {
    if ts == [] then []
    else if ts[0].Ch? then Groups(ts[1..])
    else [ts[0].text] + Groups(ts[1..])
  }

  function Placeholder(n: nat): string { "@" + Dec(n) + "@" }

  /** The rule with its groups replaced by placeholders numbered from `n`. */
  function ShowRef(ts: seq<Token>, n: nat): string {
    if ts == [] then ""
    else if ts[0].Ch? then [ts[0].c] + ShowRef(ts[1..], n)
    else Placeholder(n) + ShowRef(ts[1..], n + 1)
  }

  lemma ShowCons(t: Token, ts: seq<Token>)
    ensures Show([t] + ts) == ShowToken(t) + Show(ts)
  {
    assert ([t] + ts)[1..] == ts;
  }

  lemma {:induction false} ShowConcat(a: seq<Token>, b: seq<Token>)
    ensures Show(a + b) == Show(a) + Show(b)
  {
    if a == [] {
      assert a + b == b;
    } else {
      assert a + b == [a[0]] + (a[1..] + b);
      calc {
        Show(a + b);
        { ShowCons(a[0], a[1..] + b); ShowConcat(a[1..], b); }
        ShowToken(a[0]) + (Show(a[1..]) + Show(b));
        (ShowToken(a[0]) + Show(a[1..])) + Show(b);
      }
    }
  }

  lemma {:induction false} GroupsConcat(a: seq<Token>, b: seq<Token>)
    ensures Groups(a + b) == Groups(a) + Groups(b)
  {
    if a == [] {
      assert a + b == b;
    } else {
      GroupsConcat(a[1..], b);
      assert (a + b)[0] == a[0] && (a + b)[1..] == a[1..] + b;
      if a[0].Grp? {
        Associate([a[0].text], Groups(a[1..]), Groups(b));
      }
    }
  }

  lemma {:induction false} ShowRefConcat(a: seq<Token>, b: seq<Token>, n: nat)
    ensures ShowRef(a + b, n) == ShowRef(a, n) + ShowRef(b, n + |Groups(a)|)
  {
    if a == [] {
      assert a + b == b;
    } else {
      var first := if a[0].Ch? then [a[0].c] else Placeholder(n);
      var m := if a[0].Ch? then n else n + 1;
      ShowRefConcat(a[1..], b, m);
      assert (a + b)[0] == a[0] && (a + b)[1..] == a[1..] + b;
      assert ShowRef(a + b, n) == first + ShowRef(a[1..] + b, m);
      Associate(first, ShowRef(a[1..], m), ShowRef(b, n + |Groups(a)|));
    }
  }

  lemma {:induction false} GroupFree(ts: seq<Token>, n: nat)
    requires Groups(ts) == []
    ensures ShowRef(ts, n) == Show(ts)
  {
    if ts != [] {
      GroupFree(ts[1..], n);
    }
  }

  /** The rewritten rule holds no parentheses. */
  lemma {:induction false} ShowRefHasNoParens(ts: seq<Token>, n: nat)
    requires Plain(ts)
    ensures '(' !in ShowRef(ts, n) && ')' !in ShowRef(ts, n)
  {
    if ts != [] {
      assert PlainToken(ts[0]);
      assert forall c :: c in Dec(n) ==> IsDigit(c);
      ShowRefHasNoParens(ts[1..], if ts[0].Ch? then n else n + 1);
    }
  }

  /** After an opening parenthesis the group runs to the first closing one. */
  lemma {:induction false} OpenCloses(r: string)
    requires BalancedFrom(r, true)
    ensures ')' in r
    ensures '(' !in r[..IndexOf(r, ')')] && BalancedFrom(r[IndexOf(r, ')') + 1..], false)
  {
    if r[0] != ')' {
      OpenCloses(r[1..]);
      var j := IndexOf(r[1..], ')');
      assert r[..j + 1] == [r[0]] + r[1..][..j];
      assert r[j + 2..] == r[1..][j + 1..];
      IndexOfIs(r, ')', j + 1);
    }
  }

  /** A rule that opens with a parenthesis starts with a group. */
  lemma OpensGroup(s: string) returns (g: string, rest: string)
    requires BalancedFrom(s, false) && s != "" && s[0] == '(' && '@' !in s
    ensures s == "(" + g + ")" + rest && PlainText(g)
    ensures BalancedFrom(rest, false) && '@' !in rest
    ensures Tokenize(s) == [Grp(g)] + Tokenize(rest)
  {
    OpenCloses(s[1..]);
    var j := IndexOf(s[1..], ')');
    g, rest := s[1..][..j], s[1..][j + 1..];
    assert s == "(" + g + ")" + rest;
    assert s[..j + 1] == "(" + g;
    IndexOfIs(s, ')', j + 1);
    assert s[1..j + 1] == g && s[j + 2..] == rest;
  }

  /** A balanced rule without at-signs is tokens with plain texts. */
  lemma {:induction false} TokensOfBalanced(s: string)
    requires BalancedFrom(s, false) && '@' !in s
    ensures Plain(Tokenize(s)) && Show(Tokenize(s)) == s
    decreases |s|
  {
    if s == "" {
    } else if s[0] == '(' {
      var g, rest := OpensGroup(s);
      TokensOfBalanced(rest);
      ShowCons(Grp(g), Tokenize(rest));
    } else {
      TokensOfBalanced(s[1..]);
      ShowCons(Ch(s[0]), Tokenize(s[1..]));
    }
  }

  lemma {:induction false} BalancedOverPlain(t: string, r: string, open: bool)
    requires '(' !in t && ')' !in t
    ensures BalancedFrom(t + r, open) == BalancedFrom(r, open)
  {
    if t == "" {
      assert t + r == r;
    } else {
      BalancedOverPlain(t[1..], r, open);
      assert (t + r)[1..] == t[1..] + r;
    }
  }

  lemma TokenizeGroup(g: string, rest: string)
    requires PlainText(g) && BalancedFrom(rest, false)
    ensures BalancedFrom("(" + g + ")" + rest, false)
    ensures Tokenize("(" + g + ")" + rest) == [Grp(g)] + Tokenize(rest)
  {
    var s := "(" + g + ")" + rest;
    var tail := ")" + rest;
    assert s[1..] == g + tail && tail[1..] == rest;
    BalancedOverPlain(g, tail, true);
    assert s[..|g| + 1] == "(" + g;
    IndexOfIs(s, ')', |g| + 1);
    assert s[1..|g| + 1] == g && s[|g| + 2..] == rest;
  }

  /** Plain tokens are exactly what a balanced rule is made of. */
  lemma {:induction false} TokenizeShow(ts: seq<Token>)
    requires Plain(ts)
    ensures BalancedFrom(Show(ts), false) && '@' !in Show(ts)
    ensures Tokenize(Show(ts)) == ts
  {
    if ts != [] {
      assert PlainToken(ts[0]);
      TokenizeShow(ts[1..]);
      var rest := Show(ts[1..]);
      assert Show(ts) == ShowToken(ts[0]) + rest;
      if ts[0].Ch? {
        assert Show(ts)[1..] == rest;
      } else {
        TokenizeGroup(ts[0].text, rest);
      }
    }
  }

  lemma PlainAppend(done: seq<Token>, head: seq<Token>, t: Token)
    requires Plain(done) && Plain(head) && PlainToken(t)
    ensures Plain((done + head) + [t])
  {
  }

  // ----- Extraction -----

  /** The group table after groups `gs` were taken out: numbered from 0. */
  function Numbered(gs: seq<string>): map<nat, string> { map n: nat | n < |gs| :: gs[n] }

  lemma {:induction false} NumberedSize(gs: seq<string>)
    ensures |Numbered(gs)| == |gs|
  {
    if gs != [] {
      var init := gs[..|gs| - 1];
      NumberedSize(init);
      assert Numbered(gs) == Numbered(init)[|init| := gs[|init|]];
    }
  }

  lemma NumberedAppend(gs: seq<string>, g: string)
    ensures Numbered(gs)[|Numbered(gs)| := g] == Numbered(gs + [g])
  {
    NumberedSize(gs);
  }

  /** The table maps the groups of `ts`, numbered from `n`, to their texts. */
  ghost predicate Covers(table: map<nat, string>, ts: seq<Token>, n: nat) {
    ts != [] ==>
      if ts[0].Ch? then Covers(table, ts[1..], n)
      else n in table && table[n] == ts[0].text && Covers(table, ts[1..], n + 1)
  }

  lemma {:induction false} NumberedCovers(gs: seq<string>, ts: seq<Token>)
    ensures Covers(Numbered(gs + Groups(ts)), ts, |gs|)
    decreases |ts|
  {
    if ts != [] {
      if ts[0].Ch? {
        NumberedCovers(gs, ts[1..]);
      } else {
        var g := [ts[0].text];
        NumberedCovers(gs + g, ts[1..]);
        Associate(gs, g, Groups(ts[1..]));
        assert (gs + Groups(ts))[|gs|] == ts[0].text;
      }
    }
  }

  lemma CharFirst(t: Token, ts: seq<Token>)
    requires t.Ch? && PlainToken(t) && Plain(ts) && Groups(ts) == []
    ensures Plain([t] + ts) && Groups([t] + ts) == []
  {
    assert ([t] + ts)[1..] == ts;
  }

  /** The first group of a rule, if it has a parenthesis at all. */
  lemma {:induction false} NextGroup(ts: seq<Token>) returns (head: seq<Token>, t: Token, tail: seq<Token>)
    requires Plain(ts) && '(' in Show(ts)
    ensures ts == head + ([t] + tail) && t.Grp? && Groups(head) == []
    ensures Plain(head) && PlainToken(t) && Plain(tail)
  {
    assert PlainToken(ts[0]);
    if ts[0].Grp? {
      head, t, tail := [], ts[0], ts[1..];
    } else {
      assert Show(ts) == ShowToken(ts[0]) + Show(ts[1..]);
      var rest: seq<Token>;
      rest, t, tail := NextGroup(ts[1..]);
      head := [ts[0]] + rest;
      CharFirst(ts[0], rest);
      assert ts == [ts[0]] + ts[1..];
      Associate([ts[0]], rest, [t] + tail);
    }
  }

  /** Where one turn of the rewriting loop cuts the text. */
  lemma CutFirst(a: string, g: string, tail: string)
    requires '(' !in a && ')' !in a && PlainText(g)
    ensures var clause := a + ShowToken(Grp(g)) + tail;
            var end := |a| + 1 + |g|;
            && '(' in clause && IndexOf(clause, '(') == |a|
            && ')' in clause && IndexOf(clause, ')') == end
            && clause[..|a|] == a && clause[|a| + 1..end] == g && clause[end + 1..] == tail
  {
    var clause := a + ShowToken(Grp(g)) + tail;
    var end := |a| + 1 + |g|;
    assert clause[..|a|] == a;
    IndexOfIs(clause, '(', |a|);
    assert clause[..end] == a + "(" + g;
    IndexOfIs(clause, ')', end);
  }

  /** One turn of the rewriting loop on tokens: the first group becomes a placeholder. */
  lemma ExtractFirst(done: seq<Token>, head: seq<Token>, t: Token, tail: seq<Token>)
    requires Plain(done) && Plain(head) && t.Grp? && Groups(head) == []
    ensures var a := ShowRef(done + head, 0);
            && '(' !in a && ')' !in a
            && ShowRef(done, 0) + Show(head + ([t] + tail)) == a + ShowToken(t) + Show(tail)
            && a + Placeholder(|Groups(done)|) == ShowRef((done + head) + [t], 0)
    ensures Groups((done + head) + [t]) == Groups(done) + [t.text]
  {
    var n := |Groups(done)|;
    ShowRefHasNoParens(done + head, 0);
    GroupFree(head, n);
    ShowRefConcat(done, head, 0);
    ShowConcat(head, [t] + tail);
    ShowCons(t, tail);
    Regroup(ShowRef(done, 0), Show(head), ShowToken(t), Show(tail));
    GroupsConcat(done, head);
    GroupsConcat(done + head, [t]);
    ShowRefConcat(done + head, [t], 0);
    assert [t][1..] == [];
    assert ShowRef([t], n) == Placeholder(n) + ShowRef([], n + 1);
  }

  lemma {:induction false} NoParenNoGroup(ts: seq<Token>)
    requires '(' !in Show(ts)
    ensures Groups(ts) == []
  {
    if ts != [] {
      assert Show(ts) == ShowToken(ts[0]) + Show(ts[1..]);
      assert Show(ts)[0] == ShowToken(ts[0])[0];
      NoParenNoGroup(ts[1..]);
    }
  }

  /** Once no parenthesis is left, every group has been taken out. */
  lemma AllExtracted(done: seq<Token>, todo: seq<Token>)
    requires '(' !in Show(todo)
    ensures ShowRef(done + todo, 0) == ShowRef(done, 0) + Show(todo)
    ensures Groups(done + todo) == Groups(done) && Groups(todo) == []
  {
    NoParenNoGroup(todo);
    GroupFree(todo, |Groups(done)|);
    ShowRefConcat(done, todo, 0);
    GroupsConcat(done, todo);
  }

  // ----- Putting the groups back -----

  /** Each `@n@` replaced by its group in parentheses. */
  function Restore(s: string, table: map<nat, string>): string
    decreases |s|
  {
    if s == "" then ""
    else if s[0] == '@' && '@' in s[1..] then
      var i := IndexOf(s[1..], '@');
      var numeral := s[1..i + 1];
      if IsDigits(numeral) && DecValue(numeral) in table
      then "(" + table[DecValue(numeral)] + ")" + Restore(s[i + 2..], table)
      else [s[0]] + Restore(s[1..], table)
    else [s[0]] + Restore(s[1..], table)
  }

  lemma RestorePlaceholder(n: nat, rest: string, table: map<nat, string>)
    requires n in table
    ensures Restore(Placeholder(n) + rest, table) == "(" + table[n] + ")" + Restore(rest, table)
  {
    PlaceholderFirst(n, rest);
    DecRoundTrip(n);
  }

  /** Where a text starts with a placeholder. */
  lemma PlaceholderFirst(n: nat, rest: string)
    ensures var s, d := Placeholder(n) + rest, Dec(n);
            && s[0] == '@' && '@' in s[1..] && IndexOf(s[1..], '@') == |d|
            && s[1..|d| + 1] == d && s[|d| + 2..] == rest
  {
    var d := Dec(n);
    assert '@' !in d by {
      assert forall c :: c in d ==> IsDigit(c);
    }
    var tail := d + ['@'] + rest;
    assert Placeholder(n) + rest == ['@'] + tail;
    CutAtFirst(d, '@', rest);
  }

  lemma {:induction false} RestoreRewritten(ts: seq<Token>, n: nat, table: map<nat, string>)
    requires Plain(ts) && Covers(table, ts, n)
    ensures Restore(ShowRef(ts, n), table) == Show(ts)
  {
    if ts != [] {
      assert PlainToken(ts[0]);
      if ts[0].Ch? {
        RestoreRewritten(ts[1..], n, table);
        assert ShowRef(ts, n)[1..] == ShowRef(ts[1..], n);
      } else {
        RestoreRewritten(ts[1..], n + 1, table);
        RestorePlaceholder(n, ShowRef(ts[1..], n + 1), table);
      }
    }
  }

  /** Taking the groups out of a rule and putting them back restores it. */
  lemma ExtractionIsReversible(s: string)
    requires Balanced(s) && '@' !in s
    ensures var ts := Tokenize(s);
            Restore(ShowRef(ts, 0), Numbered(Groups(ts))) == s
  {
    BalancedRecursive(s);
    TokensOfBalanced(s);
    NumberedCovers([], Tokenize(s));
    assert [] + Groups(Tokenize(s)) == Groups(Tokenize(s));
    RestoreRewritten(Tokenize(s), 0, Numbered(Groups(Tokenize(s))));
  }

  /** The rules that pass the parenthesis check are exactly the texts of plain tokens. */
  lemma BalancedIffTokens(s: string)
    ensures Balanced(s) && '@' !in s <==> exists ts: seq<Token> :: Plain(ts) && Show(ts) == s
  {
    BalancedRecursive(s);
    if Balanced(s) && '@' !in s {
      TokensOfBalanced(s);
    }
    if ts: seq<Token> :| Plain(ts) && Show(ts) == s {
      TokenizeShow(ts);
    }
  }

  // ----- What the check is for -----

  predicate HasBoth(s: string) { '(' in s && ')' in s }

  /** One turn of the loop on any clause that still has both parentheses; slices clip as in Python. */
  function ExtractStep(clause: string, pos: nat): string {
    if !HasBoth(clause) then clause
    else clause[..IndexOf(clause, '(')] + Placeholder(pos) + clause[IndexOf(clause, ')') + 1..]
  }

  /** A loop on `s` whose turns are `step`, numbered from `pos`, makes `turns` turns at least. */
  predicate Turns(step: (string, nat) -> string, s: string, pos: nat, turns: nat)
    decreases turns
  {
    turns == 0 || (HasBoth(s) && Turns(step, step(s, pos), pos + 1, turns - 1))
  }

  /** The loop ends after `turns` turns. */
  predicate EndsAfter(step: (string, nat) -> string, s: string, pos: nat, turns: nat)
    decreases turns
  {
    if turns == 0 then '(' !in s else HasBoth(s) && EndsAfter(step, step(s, pos), pos + 1, turns - 1)
  }

  /** After `turns` turns, looking for the closing parenthesis raises a ValueError. */
  predicate FailsAfter(step: (string, nat) -> string, s: string, pos: nat, turns: nat)
    decreases turns
  {
    if turns == 0 then '(' in s && ')' !in s else HasBoth(s) && FailsAfter(step, step(s, pos), pos + 1, turns - 1)
  }

  /** A loop whose turns keep something that needs both parentheses makes any number of turns. */
  lemma {:induction false} Forever(step: (string, nat) -> string, keeps: string -> bool, s: string, pos: nat,
                                   turns: nat)
    requires keeps(s) && forall x :: keeps(x) ==> HasBoth(x)
    requires forall x, p: nat :: keeps(x) ==> keeps(step(x, p))
    ensures Turns(step, s, pos, turns)
    decreases turns
  {
    if turns != 0 {
      Forever(step, keeps, step(s, pos), pos + 1, turns - 1);
    }
  }

  /** A loop does not do both, and goes no further. */
  lemma {:induction false} NotBoth(step: (string, nat) -> string, s: string, pos: nat, m: nat, n: nat)
    requires EndsAfter(step, s, pos, m)
    ensures !FailsAfter(step, s, pos, n)
    decreases m
  {
    if m > 0 && n > 0 {
      NotBoth(step, step(s, pos), pos + 1, m - 1, n - 1);
    }
  }

  lemma {:induction false} Stops(step: (string, nat) -> string, s: string, pos: nat, turns: nat)
    requires EndsAfter(step, s, pos, turns) || FailsAfter(step, s, pos, turns)
    ensures !Turns(step, s, pos, turns + 1)
    decreases turns
  {
    if turns > 0 {
      Stops(step, step(s, pos), pos + 1, turns - 1);
    }
  }

  ghost predicate ClosesFirst(s: string) { HasBoth(s) && IndexOf(s, ')') < IndexOf(s, '(') }

  datatype Fate = Ends | Fails | NeverEnds

  /**
    What becomes of the loop, found in one scan, `open` inside a group: a group that does not close fails,
    and a closing parenthesis outside of groups, with an opening one behind it, is never got rid of.
  */
  function LoopFate(s: string, open: bool): Fate {
    if s == "" then if open then Fails else Ends
    else if open then LoopFate(s[1..], s[0] != ')')
    else if s[0] == ')' then if '(' in s then NeverEnds else Ends
    else LoopFate(s[1..], s[0] == '(')
  }

  lemma ClosesFirstStays(s: string, pos: nat)
    requires ClosesFirst(s)
    ensures ClosesFirst(ExtractStep(s, pos))
  {
    var q, p := IndexOf(s, ')'), IndexOf(s, '(');
    var s' := ExtractStep(s, pos);
    assert s'[q] == ')' && s'[..q] == s[..q];
    IndexOfIs(s', ')', q);
    assert s[q + 1..][p - q - 1] == '(';
    assert '(' in s';
    assert s'[..p] == s[..p];
    assert forall k :: 0 <= k < p ==> s'[k] == s[..p][k];
  }

  lemma {:induction false} ScanPast(pre: string, s: string, open: bool)
    requires ')' !in pre && (open || '(' !in pre)
    ensures LoopFate(pre + s, open) == LoopFate(s, open)
  {
    if pre == "" {
      assert pre + s == s;
    } else {
      assert (pre + s)[0] == pre[0] && (pre + s)[1..] == pre[1..] + s;
      ScanPast(pre[1..], s, open);
    }
  }

  lemma {:induction false} NothingOpens(s: string)
    requires '(' !in s
    ensures LoopFate(s, false).Ends?
  {
    if s != "" {
      NothingOpens(s[1..]);
    }
  }

  lemma {:induction false} NothingCloses(s: string, open: bool)
    requires ')' !in s && (open || '(' in s)
    ensures LoopFate(s, open).Fails?
  {
    if s != "" {
      NothingCloses(s[1..], open || s[0] == '(');
    }
  }

  lemma ClosesFirstFate(s: string)
    requires ClosesFirst(s)
    ensures LoopFate(s, false).NeverEnds?
  {
    var p, q := IndexOf(s, '('), IndexOf(s, ')');
    var pre, rest := s[..q], s[q..];
    assert forall k :: 0 <= k < q ==> pre[k] == s[..p][k];
    assert s == pre + rest && rest[0] == ')' && rest[p - q] == '(';
    ScanPast(pre, rest, false);
  }

  /** A whole group is scanned past. */
  lemma {:induction false} ScanGroup(a: string, g: string, rest: string)
    requires '(' !in a && ')' !in a && ')' !in g
    ensures LoopFate(a + (['('] + (g + ([')'] + rest))), false) == LoopFate(rest, false)
  {
    var tail := [')'] + rest;
    ScanPast(a, ['('] + (g + tail), false);
    assert (['('] + (g + tail))[1..] == g + tail;
    ScanPast(g, tail, true);
    assert tail[1..] == rest;
  }

  lemma CutAround(s: string, p: nat, q: nat)
    requires p < q < |s| && s[p] == '(' && s[q] == ')'
    ensures s == s[..p] + (['('] + (s[p + 1..q] + ([')'] + s[q + 1..])))
  {
  }

  /** The parts of a clause around its first group. */
  lemma AroundGroup(s: string, pos: nat) returns (a: string, g: string, rest: string)
    requires HasBoth(s) && !ClosesFirst(s)
    ensures s == a + (['('] + (g + ([')'] + rest))) && '(' !in a && ')' !in a && ')' !in g
    ensures ExtractStep(s, pos) == (a + Placeholder(pos)) + rest
  {
    var p, q := IndexOf(s, '('), IndexOf(s, ')');
    a, g, rest := s[..p], s[p + 1..q], s[q + 1..];
    assert forall k :: 0 <= k < p ==> a[k] == s[..q][k];
    assert forall k :: 0 <= k < |g| ==> g[k] == s[..q][p + 1 + k];
    CutAround(s, p, q);
  }

  lemma PlaceholderHasNoParens(pos: nat)
    ensures '(' !in Placeholder(pos) && ')' !in Placeholder(pos)
  {
    assert forall c :: c in Dec(pos) ==> IsDigit(c);
  }

  /** A turn that finds a group keeps the fate and takes an opening parenthesis away. */
  lemma {:induction false} TurnKeepsFate(s: string, pos: nat)
    requires HasBoth(s) && !ClosesFirst(s)
    ensures LoopFate(ExtractStep(s, pos), false) == LoopFate(s, false)
    ensures Count(ExtractStep(s, pos), '(') < Count(s, '(')
  {
    var a, g, rest := AroundGroup(s, pos);
    PlaceholderHasNoParens(pos);
    ScanGroup(a, g, rest);
    ScanPast(a + Placeholder(pos), rest, false);
    CountGroup(a, g, rest, a + Placeholder(pos));
  }

  lemma {:induction false} CountGroup(a: string, g: string, rest: string, pre: string)
    requires '(' !in pre
    ensures Count(pre + rest, '(') < Count(a + (['('] + (g + ([')'] + rest))), '(')
  {
    CountZero(pre, '(');
    CountConcat(pre, rest, '(');
    CountConcat(a, ['('] + (g + ([')'] + rest)), '(');
    assert (['('] + (g + ([')'] + rest)))[1..] == g + ([')'] + rest);
    CountConcat(g, [')'] + rest, '(');
    assert ([')'] + rest)[1..] == rest;
  }

  lemma {:induction false} FateReached(s: string, pos: nat) returns (turns: nat)
    requires !LoopFate(s, false).NeverEnds?
    ensures if LoopFate(s, false).Ends? then EndsAfter(ExtractStep, s, pos, turns)
            else FailsAfter(ExtractStep, s, pos, turns)
    decreases Count(s, '(')
  {
    if '(' !in s {
      NothingOpens(s);
      turns := 0;
    } else if ')' !in s {
      NothingCloses(s, false);
      turns := 0;
    } else {
      if ClosesFirst(s) {
        ClosesFirstFate(s);
      }
      TurnKeepsFate(s, pos);
      turns := FateReached(ExtractStep(s, pos), pos + 1);
      turns := turns + 1;
    }
  }

  lemma {:induction false} NeverStays(s: string, pos: nat)
    requires LoopFate(s, false).NeverEnds?
    ensures HasBoth(s) && LoopFate(ExtractStep(s, pos), false).NeverEnds?
  {
    if '(' !in s {
      NothingOpens(s);
    } else if ')' !in s {
      NothingCloses(s, false);
    } else if ClosesFirst(s) {
      ClosesFirstStays(s, pos);
      ClosesFirstFate(ExtractStep(s, pos));
    } else {
      TurnKeepsFate(s, pos);
    }
  }

  lemma FateNever(s: string, pos: nat, turns: nat)
    requires LoopFate(s, false).NeverEnds?
    ensures Turns(ExtractStep, s, pos, turns)
  {
    var never := (x: string) => LoopFate(x, false).NeverEnds?;
    forall x, p: nat | never(x)
      ensures never(ExtractStep(x, p))
    {
      NeverStays(x, p);
    }
    assert forall x :: never(x) ==> HasBoth(x) by {
      forall x | never(x)
        ensures HasBoth(x)
      {
        NeverStays(x, 0);
      }
    }
    Forever(ExtractStep, never, s, pos, turns);
  }

  /** On any text at all: when the rewriting loop ends, when it raises a ValueError, and when it never ends. */
  lemma LoopFateIs(s: string)
    ensures LoopFate(s, false).Ends? <==> exists turns: nat :: EndsAfter(ExtractStep, s, 0, turns)
    ensures LoopFate(s, false).Fails? <==> exists turns: nat :: FailsAfter(ExtractStep, s, 0, turns)
    ensures LoopFate(s, false).NeverEnds? <==> forall turns: nat :: Turns(ExtractStep, s, 0, turns)
  {
    if LoopFate(s, false).NeverEnds? {
      forall turns: nat
        ensures Turns(ExtractStep, s, 0, turns)
        ensures !EndsAfter(ExtractStep, s, 0, turns) && !FailsAfter(ExtractStep, s, 0, turns)
      {
        FateNever(s, 0, turns);
        FateNever(s, 0, turns + 1);
        if EndsAfter(ExtractStep, s, 0, turns) || FailsAfter(ExtractStep, s, 0, turns) {
          Stops(ExtractStep, s, 0, turns);
        }
      }
    } else {
      var turns := FateReached(s, 0);
      Stops(ExtractStep, s, 0, turns);
      forall n: nat
        ensures LoopFate(s, false).Ends? ==> !FailsAfter(ExtractStep, s, 0, n)
        ensures LoopFate(s, false).Fails? ==> !EndsAfter(ExtractStep, s, 0, n)
      {
        if LoopFate(s, false).Ends? {
          NotBoth(ExtractStep, s, 0, turns, n);
        } else if EndsAfter(ExtractStep, s, 0, n) {
          NotBoth(ExtractStep, s, 0, n, turns);
        }
      }
    }
  }

  /** A rule that closes before it opens is one on which it never ends. */
  lemma UncheckedRuleNeverEnds(s: string, turns: nat)
    requires ClosesFirst(s)
    ensures Turns(ExtractStep, s, 0, turns)
  {
    ClosesFirstFate(s);
    FateNever(s, 0, turns);
  }

  /** The parenthesis check rules out both failures. */
  lemma {:induction false} CheckedRuleEnds(s: string, open: bool)
    requires BalancedFrom(s, open)
    ensures LoopFate(s, open).Ends?
  {
    if s != "" {
      CheckedRuleEnds(s[1..], if s[0] == '(' then true else if s[0] == ')' then false else open);
    }
  }
}
