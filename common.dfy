/** Small shared vocabulary: an optional value (a reference that may be
    null) and the two child directions of a binary tree node. */
module Common {

  datatype Option<T> = None | Some(value: T)

  /** The child slot a step down a tree takes: `L` is the Left field, `R`
      the Right field. */
  datatype Dir = L | R

  /** A path found below the step `d`, seen from above that step. */
  function Under(d: Dir, o: Option<seq<Dir>>): Option<seq<Dir>> {
    if o.Some? then Some([d] + o.value) else None
  }

  /** A path found below `p`, seen from the top. */
  function Graft(p: seq<Dir>, o: Option<seq<Dir>>): Option<seq<Dir>> {
    if o.Some? then Some(p + o.value) else None
  }

  lemma GraftNothing(o: Option<seq<Dir>>)
    ensures Graft([], o) == o
  {
    if o.Some? {
      assert [] + o.value == o.value;
    }
  }

  lemma GraftUnder(p: seq<Dir>, d: Dir, o: Option<seq<Dir>>)
    ensures Graft(p, Under(d, o)) == Graft(p + [d], o)
  {
    if o.Some? {
      assert p + ([d] + o.value) == (p + [d]) + o.value;
    }
  }
}
