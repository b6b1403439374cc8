/** The currency catalog the page builds from the rate service's list of
    `(code, name)` pairs (`loadCurrencies`): each pair in turn sets the name
    for its code, so a later pair for the same code wins. */
module Catalog {

  /** The codes that occur in `pairs`. */
  function Codes(pairs: seq<(string, string)>): set<string> {
    set i | 0 <= i < |pairs| :: pairs[i].0
  }

  /** No later pair carries the code of pair `i`. */
  predicate LastFor(pairs: seq<(string, string)>, i: int)
    requires 0 <= i < |pairs|
  {
    forall j :: i < j < |pairs| ==> pairs[j].0 != pairs[i].0
  }

  function Build(pairs: seq<(string, string)>): (m: map<string, string>)
    ensures m.Keys == Codes(pairs)
    ensures forall i :: 0 <= i < |pairs| && LastFor(pairs, i) ==> m[pairs[i].0] == pairs[i].1
    decreases |pairs|
  {
    if pairs == [] then map[]
    else
      var front := pairs[..|pairs| - 1];
      var last := pairs[|pairs| - 1];
      BuildStep(pairs, Build(front));
      Build(front)[last.0 := last.1]
  }

  /** The inductive step of `Build`: one more pair at the end. */
  lemma BuildStep(pairs: seq<(string, string)>, m: map<string, string>)
    requires pairs != []
    requires m.Keys == Codes(pairs[..|pairs| - 1])
    requires forall i :: 0 <= i < |pairs| - 1 && LastFor(pairs[..|pairs| - 1], i) ==>
               m[pairs[i].0] == pairs[i].1
    ensures var last := pairs[|pairs| - 1]; var r := m[last.0 := last.1];
      && r.Keys == Codes(pairs)
      && forall i :: 0 <= i < |pairs| && LastFor(pairs, i) ==> r[pairs[i].0] == pairs[i].1
  {
    var front := pairs[..|pairs| - 1];
    var last := pairs[|pairs| - 1];
    assert forall i :: 0 <= i < |front| ==> front[i] == pairs[i];
    assert Codes(pairs) == Codes(front) + {last.0} by {
      forall c | c in Codes(pairs) ensures c in Codes(front) + {last.0} {
        var i :| 0 <= i < |pairs| && pairs[i].0 == c;
        if i < |front| { assert front[i].0 == c; }
      }
      forall c | c in Codes(front) ensures c in Codes(pairs) {
        var i :| 0 <= i < |front| && front[i].0 == c;
        assert pairs[i].0 == c;
      }
    }
    forall i | 0 <= i < |pairs| - 1 && LastFor(pairs, i)
      ensures LastFor(front, i)
    {
    }
  }
}
