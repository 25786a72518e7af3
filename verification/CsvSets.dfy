/**
  Sets of names stored as one comma separated string, in whatever order a Python set happens to
  enumerate them.
*/
module CsvSets {
  import opened Strings

  predicate Name(s: string) { s != "" && ',' !in s }

  /** The parts of a stored string, the empty one included. */
  function Parts(stored: string): set<string> { set p | p in Split(stored, ',') }

  /** The names a stored string lists; an absent string lists none. */
  function Names(stored: Option<string>): set<string> {
    if stored.None? then {} else Parts(stored.value) - {""}
  }

  /** What was joined lists the same names again, the last one removed included. */
  lemma JoinedParts(q: seq<string>)
    requires forall p :: p in q ==> ',' !in p
    ensures Parts(Join(q, ',')) == if q == [] then {""} else set p | p in q
  {
    if q == [] {
      assert Split("", ',') == [""];
    } else {
      SplitJoin(q, ',');
    }
  }

  lemma PartsHaveNoComma(stored: string)
    ensures forall p :: p in Parts(stored) ==> ',' !in p
  {
  }

  /** `list(set)`: every element once, in an order that is not specified. */
  method Enumerate(s: set<string>) returns (q: seq<string>)
    ensures forall x :: x in q <==> x in s
    ensures |q| == |s|
  {
    q := [];
    var rest := s;
    while rest != {}
      invariant rest <= s && |q| + |rest| == |s|
      invariant forall x :: x in q <==> x in s - rest
      decreases |rest|
    {
      var x :| x in rest;
      q := q + [x];
      rest := rest - {x};
    }
  }

  /** `','.join(list(set))` */
  method Store(s: set<string>) returns (stored: string)
    requires forall p :: p in s ==> ',' !in p
    ensures Parts(stored) == if s == {} then {""} else s
  {
    var q := Enumerate(s);
    JoinedParts(q);
    stored := Join(q, ',');
    if q == [] {
      assert s == {};
    } else {
      assert q[0] in s;
      assert (set p | p in q) == s;
    }
  }
}
