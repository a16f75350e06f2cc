/** Cell contents and player identities: a player is a non-empty marker. */
module Markers {

  datatype Marker = X | O | Empty {
    predicate IsPlayer() {
      this != Empty
    }
  }

  /** The player who moves after p: o after x, and x after anything else. */
  function Next(p: Marker): (q: Marker)
    ensures q.IsPlayer() && q != p
  {
    if p == X then O else X
  }

  /** Two turns bring a player back: the turn order is a strict x/o alternation. */
  lemma NextAlternates(p: Marker)
    requires p.IsPlayer()
    ensures Next(Next(p)) == p && {p, Next(p)} == {X, O}
  {
  }
}
