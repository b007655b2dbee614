/** The ordered level list of a quiz and the list operations the admin
    panel performs on it: lookup by id (`some`, `findIndex`), the next
    `order` value (`Math.max(...orders) + 1`), removal by id (`filter`),
    renumbering to positions, and the adjacent swaps behind the up and
    down buttons. */
module Levels {

  /** A difficulty level; `color1` and `color2` are the ends of its display
      gradient and are never interpreted. */
  datatype Level = Level(id: string, name: string, color1: string, color2: string, order: int)

  /** `levels.some(level => level.id === id)` */
  predicate HasLevel(ls: seq<Level>, id: string) {
    exists j :: 0 <= j < |ls| && ls[j].id == id
  }

  /** No two levels share an id. */
  predicate UniqueIds(ls: seq<Level>) {
    forall i, j :: 0 <= i < j < |ls| ==> ls[i].id != ls[j].id
  }

  /** Every level's `order` is its 1-based position, so the orders are
      exactly `1..N`. */
  predicate OrdersMatchPositions(ls: seq<Level>) {
    forall i :: 0 <= i < |ls| ==> ls[i].order == i + 1
  }

  /** The two levels agree on everything but `order`. */
  predicate SameButOrder(a: Level, b: Level) {
    a.id == b.id && a.name == b.name && a.color1 == b.color1 && a.color2 == b.color2
  }

  /** `levels.findIndex(level => level.id === id)`: the first position
      holding `id`, or -1. */
  function IndexOf(ls: seq<Level>, id: string): (i: int)
    ensures -1 <= i < |ls|
    ensures i >= 0 ==> ls[i].id == id && forall j :: 0 <= j < i ==> ls[j].id != id
    ensures i == -1 <==> !HasLevel(ls, id)
  {
    if ls == [] then -1
    else if ls[0].id == id then 0
    else
      var k := IndexOf(ls[1..], id);
      assert forall j :: 1 <= j < |ls| ==> ls[j] == ls[1..][j - 1];
      if k == -1 then -1 else k + 1
  }

  /** In a list with unique ids, the level with a given id sits at exactly
      one position. */
  lemma IndexOfUnique(ls: seq<Level>, k: nat)
    requires UniqueIds(ls) && k < |ls|
    ensures IndexOf(ls, ls[k].id) == k
  {
  }

  /** `Math.max(...levels.map(l => l.order))` */
  function MaxOrder(ls: seq<Level>): (m: int)
    requires ls != []
    ensures forall j :: 0 <= j < |ls| ==> ls[j].order <= m
    ensures exists j :: 0 <= j < |ls| && ls[j].order == m
  {
    if |ls| == 1 then ls[0].order
    else
      var m := MaxOrder(ls[1..]);
      assert forall j :: 1 <= j < |ls| ==> ls[j] == ls[1..][j - 1];
      if ls[0].order > m then ls[0].order else m
  }

  /** The `order` a new level receives: 1 for an empty list, else one more
      than the largest order present. */
  function NextOrder(ls: seq<Level>): (o: int)
    ensures ls == [] ==> o == 1
    ensures forall j :: 0 <= j < |ls| ==> ls[j].order < o
    ensures ls != [] ==> exists j :: 0 <= j < |ls| && ls[j].order == o - 1
    ensures OrdersMatchPositions(ls) ==> o == |ls| + 1
  {
    if |ls| > 0 then
      var m := MaxOrder(ls);
      assert OrdersMatchPositions(ls) ==> m == |ls| by {
        if OrdersMatchPositions(ls) {
          assert ls[|ls| - 1].order == |ls|;
          var j :| 0 <= j < |ls| && ls[j].order == m;
        }
      }
      m + 1
    else 1
  }

  /** The list after appending a level with a fresh id and the next order
      still has unique ids and orders matching positions. */
  lemma AppendKeepsInvariants(ls: seq<Level>, l: Level)
    requires !HasLevel(ls, l.id) && l.order == NextOrder(ls)
    ensures UniqueIds(ls) ==> UniqueIds(ls + [l])
    ensures OrdersMatchPositions(ls) ==> OrdersMatchPositions(ls + [l])
  {
    var r := ls + [l];
    if UniqueIds(ls) {
      forall i, j | 0 <= i < j < |r| ensures r[i].id != r[j].id {
        if j == |ls| {
          assert r[i] == ls[i];
        } else {
          assert r[i] == ls[i] && r[j] == ls[j];
        }
      }
    }
  }

  /** Appending a level adds exactly its id to the ids present. */
  lemma AppendHas(ls: seq<Level>, l: Level, k: string)
    ensures HasLevel(ls + [l], k) <==> HasLevel(ls, k) || l.id == k
  {
    var r := ls + [l];
    if HasLevel(ls, k) {
      var j :| 0 <= j < |ls| && ls[j].id == k;
      assert r[j] == ls[j];
    }
    if l.id == k {
      assert r[|ls|] == l;
    }
  }

  /** `levels.filter(level => level.id !== id)` */
  function WithoutId(ls: seq<Level>, id: string): (r: seq<Level>)
    ensures |r| <= |ls|
    ensures !HasLevel(r, id)
    ensures forall l :: l in r <==> l in ls && l.id != id
    ensures !HasLevel(ls, id) ==> r == ls
  {
    if ls == [] then []
    else
      var rest := WithoutId(ls[1..], id);
      assert ls == [ls[0]] + ls[1..];
      assert !HasLevel(ls, id) ==> !HasLevel(ls[1..], id) && ls[0].id != id by {
        if !HasLevel(ls, id) {
          forall j | 0 <= j < |ls[1..]| ensures ls[1..][j].id != id {
            assert ls[1..][j] == ls[j + 1];
          }
        }
      }
      if ls[0].id == id then rest else [ls[0]] + rest
  }

  /** `filter` works element by element and keeps the order: filtering a
      concatenation is filtering each part (with `WithoutIdOne`, this fixes
      the result completely). */
  lemma {:induction false} WithoutIdAppend(a: seq<Level>, b: seq<Level>, id: string)
    ensures WithoutId(a + b, id) == WithoutId(a, id) + WithoutId(b, id)
  {
    if a == [] {
      assert a + b == b;
    } else {
      var ab := a + b;
      assert ab[0] == a[0] && ab[1..] == a[1..] + b;
      WithoutIdAppend(a[1..], b, id);
      var x, y := WithoutId(a[1..], id), WithoutId(b, id);
      if a[0].id != id {
        assert [a[0]] + (x + y) == ([a[0]] + x) + y;
      }
    }
  }

  /** A single level is kept exactly when its id differs. */
  lemma WithoutIdOne(l: Level, id: string)
    ensures WithoutId([l], id) == if l.id == id then [] else [l]
  {
    assert [l][1..] == [];
  }

  /** With unique ids, removing the id of the level at position `k` removes
      exactly that level and keeps the others in order. */
  lemma {:induction false} WithoutIdAt(ls: seq<Level>, k: nat)
    requires UniqueIds(ls) && k < |ls|
    ensures WithoutId(ls, ls[k].id) == ls[..k] + ls[k + 1..]
  {
    var id := ls[k].id;
    var tail := ls[1..];
    assert UniqueIds(tail) by {
      forall i, j | 0 <= i < j < |tail| ensures tail[i].id != tail[j].id {
        assert tail[i] == ls[i + 1] && tail[j] == ls[j + 1];
      }
    }
    if k == 0 {
      assert !HasLevel(tail, id) by {
        forall j | 0 <= j < |tail| ensures tail[j].id != id {
          assert tail[j] == ls[j + 1];
        }
      }
      assert WithoutId(tail, id) == tail;
    } else {
      assert tail[k - 1] == ls[k];
      WithoutIdAt(tail, k - 1);
      assert ls[0].id != id;
      ConsSplit(ls, k);
    }
  }

  lemma ConsSplit(ls: seq<Level>, k: nat)
    requires 0 < k < |ls|
    ensures [ls[0]] + (ls[1..][..k - 1] + ls[1..][k..]) == ls[..k] + ls[k + 1..]
  {
    assert ls[..k] == [ls[0]] + ls[1..][..k - 1];
    assert ls[k + 1..] == ls[1..][k..];
  }

  /** Removing a level never creates a duplicate id. */
  lemma {:induction false} WithoutIdKeepsUnique(ls: seq<Level>, id: string)
    requires UniqueIds(ls)
    ensures UniqueIds(WithoutId(ls, id))
  {
    if ls != [] {
      var tail := ls[1..];
      assert UniqueIds(tail) by {
        forall i, j | 0 <= i < j < |tail| ensures tail[i].id != tail[j].id {
          assert tail[i] == ls[i + 1] && tail[j] == ls[j + 1];
        }
      }
      WithoutIdKeepsUnique(tail, id);
      var rest := WithoutId(tail, id);
      if ls[0].id != id {
        forall l | l in rest ensures l.id != ls[0].id {
          var m :| 0 <= m < |tail| && tail[m] == l;
          assert tail[m] == ls[m + 1];
        }
        ConsKeepsUnique(ls[0], rest);
      }
    }
  }

  lemma ConsKeepsUnique(x: Level, rest: seq<Level>)
    requires UniqueIds(rest)
    requires forall l :: l in rest ==> l.id != x.id
    ensures UniqueIds([x] + rest)
  {
    var r := [x] + rest;
    forall i, j | 0 <= i < j < |r| ensures r[i].id != r[j].id {
      assert r[j] == rest[j - 1];
      if i > 0 {
        assert r[i] == rest[i - 1];
      }
    }
  }

  /** The renumbering loop of `deleteLevel`: `level.order = index + 1`. */
  function Renumber(ls: seq<Level>): (r: seq<Level>)
    ensures |r| == |ls|
    ensures OrdersMatchPositions(r)
    ensures forall i :: 0 <= i < |ls| ==> SameButOrder(r[i], ls[i])
    ensures OrdersMatchPositions(ls) ==> r == ls
  {
    seq(|ls|, i requires 0 <= i < |ls| => ls[i].(order := i + 1))
  }

  /** Renumbering keeps the ids where they were. */
  lemma RenumberKeepsUnique(ls: seq<Level>)
    requires UniqueIds(ls)
    ensures UniqueIds(Renumber(ls))
  {
  }

  /** After `deleteLevel`'s filter and renumbering, the ids present are
      the old ones except the deleted one. */
  lemma DeleteHas(ls: seq<Level>, id: string, k: string)
    ensures HasLevel(Renumber(WithoutId(ls, id)), k) <==> HasLevel(ls, k) && k != id
  {
    WithoutIdHas(ls, id, k);
    RenumberHas(WithoutId(ls, id), k);
  }

  lemma WithoutIdHas(ls: seq<Level>, id: string, k: string)
    ensures HasLevel(WithoutId(ls, id), k) <==> HasLevel(ls, k) && k != id
  {
    var w := WithoutId(ls, id);
    if HasLevel(w, k) {
      var j :| 0 <= j < |w| && w[j].id == k;
      assert w[j] in w;
      var m :| 0 <= m < |ls| && ls[m] == w[j];
    }
    if HasLevel(ls, k) && k != id {
      var m :| 0 <= m < |ls| && ls[m].id == k;
      assert ls[m] in w;
      var j :| 0 <= j < |w| && w[j] == ls[m];
    }
  }

  lemma RenumberHas(ls: seq<Level>, k: string)
    ensures HasLevel(Renumber(ls), k) <==> HasLevel(ls, k)
  {
    var r := Renumber(ls);
    if HasLevel(r, k) {
      var j :| 0 <= j < |r| && r[j].id == k;
      assert ls[j].id == k;
    }
    if HasLevel(ls, k) {
      var j :| 0 <= j < |ls| && ls[j].id == k;
      assert r[j].id == k;
    }
  }

  /** Deleting the level at position `k` keeps the earlier levels as they
      were and moves every later level one place forward, its order
      lowered by one. */
  lemma DeleteShifts(ls: seq<Level>, k: nat)
    requires UniqueIds(ls) && OrdersMatchPositions(ls) && k < |ls|
    ensures var r := Renumber(WithoutId(ls, ls[k].id));
            |r| == |ls| - 1
            && (forall j :: 0 <= j < k ==> r[j] == ls[j])
            && (forall j :: k <= j < |r| ==> r[j] == ls[j + 1].(order := j + 1) && r[j].order == ls[j + 1].order - 1)
  {
    WithoutIdAt(ls, k);
    var w := ls[..k] + ls[k + 1..];
    var r := Renumber(w);
    forall j | 0 <= j < k ensures r[j] == ls[j] {
      assert w[j] == ls[j] && ls[j].order == j + 1;
    }
    forall j | k <= j < |r| ensures r[j] == ls[j + 1].(order := j + 1) && r[j].order == ls[j + 1].order - 1 {
      assert w[j] == ls[j + 1] && ls[j + 1].order == j + 2;
    }
  }

  /** `moveLevelUp`: swap the level with its predecessor, then set both
      orders to their new 1-based positions; nothing happens for the first
      level or an id that is not present. */
  function MovedUp(ls: seq<Level>, id: string): (r: seq<Level>)
    ensures |r| == |ls|
    ensures IndexOf(ls, id) <= 0 ==> r == ls
    ensures var i := IndexOf(ls, id);
            i > 0 ==> r[i - 1] == ls[i].(order := i) && r[i] == ls[i - 1].(order := i + 1)
                      && forall j :: 0 <= j < |ls| && j != i - 1 && j != i ==> r[j] == ls[j]
  {
    var i := IndexOf(ls, id);
    if i > 0 then
      var swapped := ls[i := ls[i - 1]][i - 1 := ls[i]];
      swapped[i := swapped[i].(order := i + 1)][i - 1 := swapped[i - 1].(order := i)]
    else ls
  }

  /** `moveLevelDown`: swap the level with its successor, then set both
      orders to their new 1-based positions; nothing happens for the last
      level. The id must be present unless the list is empty: for an
      absent id the source swaps positions -1 and 0, leaving `undefined`
      at position 0 and the first level under the key "-1", and then
      fails on `undefined.order`. */
  function MovedDown(ls: seq<Level>, id: string): (r: seq<Level>)
    requires HasLevel(ls, id) || ls == []
    ensures |r| == |ls|
    ensures IndexOf(ls, id) == |ls| - 1 || ls == [] ==> r == ls
    ensures var i := IndexOf(ls, id);
            0 <= i < |ls| - 1 ==> r[i] == ls[i + 1].(order := i + 1) && r[i + 1] == ls[i].(order := i + 2)
                                  && forall j :: 0 <= j < |ls| && j != i && j != i + 1 ==> r[j] == ls[j]
  {
    var i := IndexOf(ls, id);
    if i < |ls| - 1 then
      var swapped := ls[i := ls[i + 1]][i + 1 := ls[i]];
      swapped[i := swapped[i].(order := i + 1)][i + 1 := swapped[i + 1].(order := i + 2)]
    else ls
  }

  /** Moving up keeps ids unique and, when the orders matched positions
      before, they still do; with unique ids the level ends up one
      position earlier. */
  lemma MovedUpKeepsInvariants(ls: seq<Level>, id: string)
    ensures UniqueIds(ls) ==> UniqueIds(MovedUp(ls, id))
    ensures OrdersMatchPositions(ls) ==> OrdersMatchPositions(MovedUp(ls, id))
    ensures UniqueIds(ls) && IndexOf(ls, id) > 0 ==> IndexOf(MovedUp(ls, id), id) == IndexOf(ls, id) - 1
  {
    var i, r := IndexOf(ls, id), MovedUp(ls, id);
    if i > 0 && UniqueIds(ls) {
      SwapKeepsUnique(ls, r, i - 1);
      IndexOfUnique(r, i - 1);
    }
  }

  /** Moving down keeps ids unique and, when the orders matched positions
      before, they still do; with unique ids the level ends up one
      position later. */
  lemma MovedDownKeepsInvariants(ls: seq<Level>, id: string)
    requires HasLevel(ls, id) || ls == []
    ensures UniqueIds(ls) ==> UniqueIds(MovedDown(ls, id))
    ensures OrdersMatchPositions(ls) ==> OrdersMatchPositions(MovedDown(ls, id))
    ensures UniqueIds(ls) && 0 <= IndexOf(ls, id) < |ls| - 1
            ==> IndexOf(MovedDown(ls, id), id) == IndexOf(ls, id) + 1
  {
    var i, r := IndexOf(ls, id), MovedDown(ls, id);
    if 0 <= i < |ls| - 1 && UniqueIds(ls) {
      SwapKeepsUnique(ls, r, i);
      IndexOfUnique(r, i + 1);
    }
  }

  /** Moving a level up or down changes no id's presence. */
  lemma MovedHas(ls: seq<Level>, id: string, k: string)
    ensures HasLevel(MovedUp(ls, id), k) <==> HasLevel(ls, k)
    ensures HasLevel(ls, id) || ls == [] ==> (HasLevel(MovedDown(ls, id), k) <==> HasLevel(ls, k))
  {
    var i := IndexOf(ls, id);
    if i > 0 {
      SwapHas(ls, MovedUp(ls, id), i - 1, k);
    }
    if (HasLevel(ls, id) || ls == []) && 0 <= i < |ls| - 1 {
      SwapHas(ls, MovedDown(ls, id), i, k);
    }
  }

  lemma SwapHas(ls: seq<Level>, r: seq<Level>, k: nat, id: string)
    requires k + 1 < |ls| && |r| == |ls|
    requires r[k].id == ls[k + 1].id && r[k + 1].id == ls[k].id
    requires forall j :: 0 <= j < |ls| && j != k && j != k + 1 ==> r[j] == ls[j]
    ensures HasLevel(r, id) <==> HasLevel(ls, id)
  {
    if HasLevel(r, id) {
      var j :| 0 <= j < |r| && r[j].id == id;
      var j' := if j == k then k + 1 else if j == k + 1 then k else j;
      assert ls[j'].id == id;
    }
    if HasLevel(ls, id) {
      var j :| 0 <= j < |ls| && ls[j].id == id;
      var j' := if j == k then k + 1 else if j == k + 1 then k else j;
      assert r[j'].id == id;
    }
  }

  /** Exchanging two neighbours (whatever their orders become) keeps ids
      unique. */
  lemma SwapKeepsUnique(ls: seq<Level>, r: seq<Level>, k: nat)
    requires UniqueIds(ls) && k + 1 < |ls| && |r| == |ls|
    requires r[k].id == ls[k + 1].id && r[k + 1].id == ls[k].id
    requires forall j :: 0 <= j < |ls| && j != k && j != k + 1 ==> r[j] == ls[j]
    ensures UniqueIds(r)
  {
    forall i, j | 0 <= i < j < |r| ensures r[i].id != r[j].id {
      var i' := if i == k then k + 1 else if i == k + 1 then k else i;
      var j' := if j == k then k + 1 else if j == k + 1 then k else j;
      assert r[i].id == ls[i'].id && r[j].id == ls[j'].id;
    }
  }

  /** Up followed by down on the same level restores the list, provided
      ids are unique and orders matched positions. */
  lemma UpThenDownRestores(ls: seq<Level>, id: string)
    requires UniqueIds(ls) && OrdersMatchPositions(ls)
    requires IndexOf(ls, id) > 0
    ensures HasLevel(MovedUp(ls, id), id)
    ensures MovedDown(MovedUp(ls, id), id) == ls
  {
    MovedUpKeepsInvariants(ls, id);
    var i, up := IndexOf(ls, id), MovedUp(ls, id);
    assert up[i - 1].id == id;
    var down := MovedDown(up, id);
    assert IndexOf(up, id) == i - 1;
    SwapTwiceRestores(ls, up, down, i - 1);
  }

  /** Down followed by up on the same level restores the list, provided
      ids are unique and orders matched positions. */
  lemma DownThenUpRestores(ls: seq<Level>, id: string)
    requires UniqueIds(ls) && OrdersMatchPositions(ls)
    requires 0 <= IndexOf(ls, id) < |ls| - 1
    ensures MovedUp(MovedDown(ls, id), id) == ls
  {
    MovedDownKeepsInvariants(ls, id);
    var i, down := IndexOf(ls, id), MovedDown(ls, id);
    var up := MovedUp(down, id);
    assert IndexOf(down, id) == i + 1;
    SwapTwiceRestores(ls, down, up, i);
  }

  /** Swapping positions `k` and `k + 1` twice, renumbering both each
      time, gives back a list whose orders matched positions. */
  lemma SwapTwiceRestores(ls: seq<Level>, mid: seq<Level>, r: seq<Level>, k: nat)
    requires OrdersMatchPositions(ls) && k + 1 < |ls| && |mid| == |ls| && |r| == |ls|
    requires mid[k] == ls[k + 1].(order := k + 1) && mid[k + 1] == ls[k].(order := k + 2)
    requires forall j :: 0 <= j < |ls| && j != k && j != k + 1 ==> mid[j] == ls[j]
    requires r[k] == mid[k + 1].(order := k + 1) && r[k + 1] == mid[k].(order := k + 2)
    requires forall j :: 0 <= j < |ls| && j != k && j != k + 1 ==> r[j] == mid[j]
    ensures r == ls
  {
    assert ls[k].order == k + 1 && ls[k + 1].order == k + 2;
    assert forall j :: 0 <= j < |ls| ==> r[j] == ls[j];
  }
}
