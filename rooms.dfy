/** Room candidates drawn from the random source, and rejection-sampling placement. */
module Rooms {
  import opened Grid

  /** The four raw `rand()` results one placement attempt consumes, in the order
      it draws them: for the width, the height, the column and the row. */
  datatype Roll = Roll(forWidth: nat, forHeight: nat, forX: nat, forY: nat)

  /** A rectangle the placement loop can propose: a side of 4 to 10 cells, and a
      top-left corner that keeps column 0 and the last two columns (rows) free. */
  predicate IsCandidate(c: Room) {
    && MinRoomSize <= c.width <= MaxRoomSize
    && MinRoomSize <= c.height <= MaxRoomSize
    && 1 <= c.x && c.x + c.width <= GridWidth - 2
    && 1 <= c.y && c.y + c.height <= GridHeight - 2
    && !c.connected
  }

  /** The candidate an attempt builds from its four draws. */
  function Candidate(roll: Roll): (c: Room)
    ensures IsCandidate(c)
  {
    var width := MinRoomSize + roll.forWidth % (MaxRoomSize - MinRoomSize + 1);
    var height := MinRoomSize + roll.forHeight % (MaxRoomSize - MinRoomSize + 1);
    var x := roll.forX % (GridWidth - width - 2) + 1;
    var y := roll.forY % (GridHeight - height - 2) + 1;
    Room(x, y, width, height, false)
  }

  /** Every admissible rectangle is proposed by some draws. */
  lemma CandidateCovers(c: Room)
    requires IsCandidate(c)
    ensures exists roll :: Candidate(roll) == c
  {
    var roll := Roll(c.width - MinRoomSize, c.height - MinRoomSize, c.x - 1, c.y - 1);
    ModOfSmaller(c.width - MinRoomSize, MaxRoomSize - MinRoomSize + 1);
    ModOfSmaller(c.height - MinRoomSize, MaxRoomSize - MinRoomSize + 1);
    ModOfSmaller(c.x - 1, GridWidth - c.width - 2);
    ModOfSmaller(c.y - 1, GridHeight - c.height - 2);
    assert Candidate(roll) == c;
  }

  lemma ModOfSmaller(a: nat, b: int)
    requires a < b
    ensures a % b == a
  {
  }

  /** A candidate's cells and centre all lie in the grid. */
  lemma CandidateInGrid(c: Room)
    requires IsCandidate(c)
    ensures CenterInGrid(c) && InRoom(c, Center(c).x, Center(c).y)
    ensures forall i, j :: InRoom(c, i, j) ==> InGrid(i, j)
  {
  }

  function Candidates(rolls: seq<Roll>): seq<Room> {
    seq(|rolls|, k requires 0 <= k < |rolls| => Candidate(rolls[k]))
  }

  /** `c` is rejected by some room of `rs`. */
  predicate OverlapsAny(c: Room, rs: seq<Room>) {
    exists k :: 0 <= k < |rs| && Overlaps(c, rs[k])
  }

  /** The rooms committed when the candidates are tried in order: each is kept
      exactly when it overlaps none of the rooms kept before it. */
  function Place(cands: seq<Room>): seq<Room> {
    if cands == [] then []
    else
      var earlier := Place(cands[..|cands| - 1]);
      var c := cands[|cands| - 1];
      if OverlapsAny(c, earlier) then earlier else earlier + [c]
  }

  /** No two rooms of `rs` fail the overlap test, in either order. */
  predicate PairwiseSeparated(rs: seq<Room>) {
    forall a, b :: 0 <= a < b < |rs| ==> !Overlaps(rs[a], rs[b]) && !Overlaps(rs[b], rs[a])
  }

  /** The overlap test reads only the rectangles, not the `connected` flags. */
  lemma PairwiseSeparatedIgnoresFlags(rs: seq<Room>, ts: seq<Room>)
    requires PairwiseSeparated(rs)
    requires |ts| == |rs| && forall k :: 0 <= k < |rs| ==> SameShape(rs[k], ts[k])
    ensures PairwiseSeparated(ts)
  {
  }

  /** Placement keeps at most one room per candidate, keeps only candidates, and
      the rooms it keeps pass the overlap test pairwise. */
  lemma {:induction false} PlaceSound(cands: seq<Room>)
    ensures |Place(cands)| <= |cands|
    ensures forall k :: 0 <= k < |Place(cands)| ==> Place(cands)[k] in cands
    ensures PairwiseSeparated(Place(cands))
  {
    if cands != [] {
      var init := cands[..|cands| - 1];
      var c := cands[|cands| - 1];
      PlaceSound(init);
      var earlier := Place(init);
      assert forall r :: r in init ==> r in cands;
      if !OverlapsAny(c, earlier) {
        var rs := earlier + [c];
        forall a, b | 0 <= a < b < |rs|
          ensures !Overlaps(rs[a], rs[b]) && !Overlaps(rs[b], rs[a])
        {
          if b == |earlier| {
            OverlapsSymmetric(rs[a], c);
          }
        }
      }
    }
  }

  /** The rooms kept from a prefix of the candidates are a prefix of the rooms kept. */
  lemma {:induction false} PlacePrefix(cands: seq<Room>, n: nat)
    requires n <= |cands|
    ensures |Place(cands[..n])| <= |Place(cands)|
    ensures Place(cands[..n]) == Place(cands)[..|Place(cands[..n])|]
    decreases |cands|
  {
    if n < |cands| {
      var init := cands[..|cands| - 1];
      assert init[..n] == cands[..n];
      PlacePrefix(init, n);
    } else {
      assert cands[..n] == cands;
    }
  }

  /** Every candidate is either kept or rejected by a room that is kept: the
      final room count may fall short of the number of attempts. */
  lemma PlaceMaximal(cands: seq<Room>, k: nat)
    requires k < |cands|
    ensures cands[k] in Place(cands) || OverlapsAny(cands[k], Place(cands))
  {
    var before := Place(cands[..k]);
    assert cands[..k + 1][..k] == cands[..k] && cands[..k + 1][k] == cands[k];
    PlacePrefix(cands, k + 1);
    var upTo := Place(cands[..k + 1]);
    assert upTo == if OverlapsAny(cands[k], before) then before else before + [cands[k]];
    if OverlapsAny(cands[k], before) {
      var m :| 0 <= m < |before| && Overlaps(cands[k], before[m]);
      assert upTo == before;
      assert Place(cands)[m] == before[m];
    } else {
      assert upTo[|upTo| - 1] == cands[k];
      assert Place(cands)[|upTo| - 1] == cands[k];
    }
  }

  /** Candidates that each overlap a room already kept leave the placement unchanged. */
  lemma {:induction false} PlaceIgnoresRejected(pre: seq<Room>, rest: seq<Room>)
    requires forall k :: 0 <= k < |rest| ==> OverlapsAny(rest[k], Place(pre))
    ensures Place(pre + rest) == Place(pre)
    decreases |rest|
  {
    if rest == [] {
      assert pre + rest == pre;
    } else {
      var init := rest[..|rest| - 1];
      assert (pre + rest)[..|pre + rest| - 1] == pre + init;
      assert (pre + rest)[|pre + rest| - 1] == rest[|rest| - 1];
      PlaceIgnoresRejected(pre, init);
    }
  }

  /** Rooms kept from proper candidates are proper candidates, pairwise separated. */
  lemma PlacedAreCandidates(cands: seq<Room>)
    requires forall k :: 0 <= k < |cands| ==> IsCandidate(cands[k])
    ensures forall k :: 0 <= k < |Place(cands)| ==> IsCandidate(Place(cands)[k])
    ensures PairwiseSeparated(Place(cands))
  {
    PlaceSound(cands);
  }
}
