/**
 * The contract of a piece that the engine relies on (Piece.js is not part
 * of this model): an immutable colour, an identity, and a link to at most
 * one field, mirrored by that field's `piece` back-reference.
 */
module Pieces {

  datatype Color = LIGHT | DARK

  /** The opponent of a player: DARK and LIGHT swap. */
  function Other(c: Color): (o: Color)
    ensures o != c
  {
    if c == DARK then LIGHT else DARK
  }

  /** Flipping twice gives back the same player. */
  lemma OtherInvolution(c: Color)
    ensures Other(Other(c)) == c
  {
  }

  /** A piece: `id` stands for the object's identity, `color` never changes. */
  datatype Piece = Piece(id: nat, color: Color)

  /**
   * Both sides of the piece/field relation: `occupant[n]` is `field.piece`
   * of the field numbered `n` (and the game's `piecesByNum[n]`), and
   * `location[p]` is the number of `p.field`; a piece missing from
   * `location` is off the board.
   */
  datatype Links = Links(occupant: map<int, Piece>, location: map<Piece, int>)
  {
    /** The two sides agree: each field holds at most one piece and each piece sits on at most one field. */
    ghost predicate Valid()
    {
      && (forall n :: n in occupant ==> occupant[n] in location && location[occupant[n]] == n)
      && (forall p :: p in location ==> location[p] in occupant && occupant[location[p]] == p)
    }

    /**
     * `piece.setField(field)`: the piece leaves its old field (whose
     * back-reference is cleared) and both sides are linked to the new one.
     * The new field must be free or already hold this piece.
     */
    function SetField(p: Piece, num: int): (r: Links)
      requires Valid()
      requires num !in occupant || occupant[num] == p
      ensures r.Valid()
      ensures p in r.location && r.location[p] == num
      ensures r.location.Keys == location.Keys + {p}
      ensures r.occupant.Keys == (if p in location then occupant.Keys - {location[p]} else occupant.Keys) + {num}
      ensures forall q :: q in location && q != p ==> r.location[q] == location[q]
      ensures forall n :: n in r.occupant && n != num ==> r.occupant[n] == occupant[n]
    {
      var vacated := if p in location then occupant - {location[p]} else occupant;
      Links(vacated[num := p], location[p := num])
    }

    /**
     * `piece.remove()`: both sides of the piece's link are cleared; every
     * other piece stays where it was.
     */
    function Remove(p: Piece): (r: Links)
      requires Valid()
      ensures r.Valid()
      ensures p !in r.location
      ensures r.location.Keys == location.Keys - {p}
      ensures r.occupant.Keys == if p in location then occupant.Keys - {location[p]} else occupant.Keys
      ensures forall q :: q in r.location ==> r.location[q] == location[q]
      ensures forall n :: n in r.occupant ==> r.occupant[n] == occupant[n]
    {
      if p in location then Links(occupant - {location[p]}, location - {p}) else this
    }
  }

  /** The board with no piece on it. */
  function NoLinks(): (r: Links)
    ensures r.Valid() && r.occupant == map[] && r.location == map[]
  {
    Links(map[], map[])
  }
}
