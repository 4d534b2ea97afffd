/** The tiled matrix product: every interleaving gives the simple kernel's result, with the same
    additions in the same order. Barriers follow section 6.12.8 of the OpenCL 1.2 specification. */
module GpuGemm {
  import opened Base
  import opened Seqs
  import opened Strides

  /** The element type and its arithmetic; nothing is assumed of `add` and `mul`. */
  datatype Ops<!T> = Ops(zero: T, add: (T, T) -> T, mul: (T, T) -> T)

  /** A launch: `a` has `rows` rows of `inner` (AX and AY), `b` has `inner` rows of `cols` (BY);
      gx by gy groups of ts by ts items cover the result. */
  datatype Launch<!T> = Launch(
    ops: Ops<T>, a: seq<T>, b: seq<T>, rows: nat, inner: nat, cols: nat, ts: nat, gx: nat, gy: nat)
  {
    predicate Valid() {
      ts > 0 && rows == ts * gx && cols == ts * gy && |a| == rows * inner && |b| == inner * cols
    }

    function Tiles(): nat
      requires ts > 0
    {
      inner / ts
    }
  }

  function ElemA<T>(c: Launch<T>, row: nat, k: nat): T
    requires c.Valid() && row < c.rows && k < c.inner
  {
    IndexBound(row, k, c.rows, c.inner);
    c.a[row * c.inner + k]
  }

  function ElemB<T>(c: Launch<T>, k: nat, col: nat): T
    requires c.Valid() && k < c.inner && col < c.cols
  {
    IndexBound(k, col, c.inner, c.cols);
    c.b[k * c.cols + col]
  }

  /** The first `n` terms of an element of the product, added from the left. */
  function Dot<T>(c: Launch<T>, row: nat, col: nat, n: nat): T
    requires c.Valid() && row < c.rows && col < c.cols && n <= c.inner
  {
    if n == 0 then c.ops.zero
    else c.ops.add(Dot(c, row, col, n - 1), c.ops.mul(ElemA(c, row, n - 1), ElemB(c, n - 1, col)))
  }

  // ----- the tiled kernel as a step machine -----

  /** A work item: its group and its place in the group. */
  datatype Id = Id(gr: nat, gc: nat, r: nat, c: nat) {
    /** The item of the same group at another place. */
    function At(r1: nat, c1: nat): Id { Id(gr, gc, r1, c1) }

    predicate Mate(o: Id) { gr == o.gr && gc == o.gc }

    /** The cell an item loads, of either tile. */
    function Own(): Cell { Cell(gr, gc, c, r) }
  }

  /** Element [i][j] of the local tile of a group. */
  datatype Cell = Cell(gr: nat, gc: nat, i: nat, j: nat)

  /** What an item does next with tile `t`: load its element of A, then of B, then (behind a
      barrier) work through the tile. After the last tile and the barrier behind it, at `LoadA`
      again, the item stores its result. */
  datatype Stage = LoadA | LoadB | Work | Stored

  datatype Item<T> = Item(t: nat, stage: Stage, k: nat, acc: T) {
    /** The number of barriers the item has reached. */
    function Phase(): nat {
      2 * t + if stage == Work || stage == Stored then 1 else 0
    }
  }

  /** The tiles `Asub` and `Bsub` of all groups; None is a cell nobody has written yet. */
  datatype State<T> = State(
    items: map<Id, Item<T>>, asub: map<Cell, Option<T>>, bsub: map<Cell, Option<T>>, out: seq<T>, fault: bool)

  predicate IsItem<T>(c: Launch<T>, id: Id) {
    id.gr < c.gx && id.gc < c.gy && id.r < c.ts && id.c < c.ts
  }

  predicate IsCell<T>(c: Launch<T>, x: Cell) {
    x.gr < c.gx && x.gc < c.gy && x.i < c.ts && x.j < c.ts
  }

  /** The items load every cell of a tile, each one its own. */
  lemma CellsShared<T>(c: Launch<T>, x: Cell)
    ensures IsCell(c, x) <==> exists id :: IsItem(c, id) && id.Own() == x
    ensures forall id: Id, o: Id :: id.Own() == x == o.Own() ==> id == o
  {
    assert Id(x.gr, x.gc, x.j, x.i).Own() == x;
  }

  function Row<T>(c: Launch<T>, id: Id): (row: nat)
    requires c.Valid() && IsItem(c, id)
    ensures row < c.rows
  {
    IndexBound(id.gr, id.r, c.gx, c.ts);
    c.ts * id.gr + id.r
  }

  function Col<T>(c: Launch<T>, id: Id): (col: nat)
    requires c.Valid() && IsItem(c, id)
    ensures col < c.cols
  {
    IndexBound(id.gc, id.c, c.gy, c.ts);
    c.ts * id.gc + id.c
  }

  /** Where the item's result goes. */
  function Place<T>(c: Launch<T>, id: Id): (i: nat)
    requires c.Valid() && IsItem(c, id)
    ensures i < c.rows * c.cols
  {
    IndexBound(Row(c, id), Col(c, id), c.rows, c.cols);
    Row(c, id) * c.cols + Col(c, id)
  }

  lemma TileBound<T>(c: Launch<T>, t: nat, k: nat)
    requires c.Valid() && t <= c.Tiles() && k <= c.ts && (t == c.Tiles() ==> k == 0)
    ensures c.ts * t + k <= c.inner && (k < c.ts && t < c.Tiles() ==> c.ts * t + k < c.inner)
  {
    var n := c.Tiles();
    assert c.inner == c.ts * n + c.inner % c.ts;
    assert c.ts * (n - t) == c.ts * n - c.ts * t;
    if t < n { MulAtLeast(c.ts, n - t); }
  }

  /** The elements an item loads for tile `t`. */
  function TileA<T>(c: Launch<T>, id: Id, t: nat): T
    requires c.Valid() && IsItem(c, id) && t < c.Tiles()
  {
    TileBound(c, t, id.c);
    ElemA(c, Row(c, id), c.ts * t + id.c)
  }

  function TileB<T>(c: Launch<T>, id: Id, t: nat): T
    requires c.Valid() && IsItem(c, id) && t < c.Tiles()
  {
    TileBound(c, t, id.r);
    ElemB(c, c.ts * t + id.r, Col(c, id))
  }

  ghost predicate Shape<T>(c: Launch<T>, s: State<T>) {
    && c.Valid() && |s.out| == c.rows * c.cols
    && (forall id :: id in s.items <==> IsItem(c, id))
    && (forall x :: x in s.asub <==> IsCell(c, x))
    && (forall x :: x in s.bsub <==> IsCell(c, x))
  }

  /** An item may go on once its whole group has reached as many barriers. */
  ghost predicate Enabled<T>(c: Launch<T>, s: State<T>, id: Id)
    requires Shape(c, s) && IsItem(c, id)
  {
    && s.items[id].t <= c.Tiles() && s.items[id].stage != Stored
    && forall o | IsItem(c, o) && o.Mate(id) :: s.items[o].Phase() >= s.items[id].Phase()
  }

  /** One step of one item. */
  ghost function Act<T>(c: Launch<T>, s: State<T>, id: Id): (s1: State<T>)
    requires Shape(c, s) && IsItem(c, id) && Enabled(c, s, id)
  {
    var it := s.items[id];
    if it.t == c.Tiles() then
      s.(out := s.out[Place(c, id) := it.acc], items := s.items[id := it.(stage := Stored)])
    else if it.stage == LoadA then
      s.(asub := s.asub[id.Own() := Some(TileA(c, id, it.t))], items := s.items[id := it.(stage := LoadB)])
    else if it.stage == LoadB then
      s.(bsub := s.bsub[id.Own() := Some(TileB(c, id, it.t))], items := s.items[id := it.(stage := Work)])
    else if it.k < c.ts then
      var x, y := s.asub[Cell(id.gr, id.gc, it.k, id.r)], s.bsub[Cell(id.gr, id.gc, id.c, it.k)];
      if x.None? || y.None? then s.(fault := true)
      else s.(items := s.items[id := it.(k := it.k + 1, acc := c.ops.add(it.acc, c.ops.mul(x.value, y.value)))])
    else
      s.(items := s.items[id := Item(it.t + 1, LoadA, 0, it.acc)])
  }

  lemma ActShape<T>(c: Launch<T>, s: State<T>, id: Id)
    requires Shape(c, s) && IsItem(c, id) && Enabled(c, s, id)
    ensures Shape(c, Act(c, s, id))
  {
  }

  ghost predicate Initial<T>(c: Launch<T>, s: State<T>) {
    && Shape(c, s) && !s.fault
    && forall id | IsItem(c, id) ::
         s.items[id] == Item(0, LoadA, 0, c.ops.zero) && s.asub[id.Own()] == None && s.bsub[id.Own()] == None
  }

  ghost predicate Next<T>(c: Launch<T>, s: State<T>, s1: State<T>)
    requires Shape(c, s)
  {
    exists id :: IsItem(c, id) && Enabled(c, s, id) && s1 == Act(c, s, id)
  }

  ghost predicate Finished<T>(c: Launch<T>, s: State<T>)
    requires Shape(c, s)
  {
    forall id | IsItem(c, id) :: s.items[id].stage == Stored
  }

  // ----- the invariant -----

  /** An item's sum when it is `k` terms into tile `t`. */
  function Partial<T>(c: Launch<T>, id: Id, t: nat, k: nat): T
    requires c.Valid() && IsItem(c, id) && t <= c.Tiles() && k <= c.ts && (t == c.Tiles() ==> k == 0)
  {
    TileBound(c, t, k);
    Dot(c, Row(c, id), Col(c, id), c.ts * t + k)
  }

  ghost predicate ItemOk<T>(c: Launch<T>, id: Id, it: Item<T>)
    requires c.Valid() && IsItem(c, id)
  {
    && it.t <= c.Tiles() && it.k <= c.ts
    && (it.stage == Work || it.k == 0)
    && (it.stage == LoadB || it.stage == Work ==> it.t < c.Tiles())
    && (it.stage == Stored ==> it.t == c.Tiles())
    && it.acc == Partial(c, id, it.t, it.k)
  }

  /** The barriers keep a group within one phase, and nobody starts a phase alone. */
  ghost predicate PairOk<T>(it: Item<T>, other: Item<T>) {
    && it.Phase() <= other.Phase() + 1
    && (it.Phase() == other.Phase() + 1 && it.stage != Stored ==> it.stage != LoadB && it.k == 0)
  }

  /** A tile stays in place from the end of its loading until its owner loads the next one. */
  ghost predicate CellOk<T>(c: Launch<T>, id: Id, it: Item<T>, x: Option<T>, y: Option<T>)
    requires c.Valid() && IsItem(c, id) && it.t <= c.Tiles()
  {
    && (it.stage == Work && it.t < c.Tiles() ==> x == Some(TileA(c, id, it.t)) && y == Some(TileB(c, id, it.t)))
    && (it.stage == LoadB && it.t < c.Tiles() ==> x == Some(TileA(c, id, it.t)))
    && (it.stage == LoadA && it.t > 0 ==> x == Some(TileA(c, id, it.t - 1)) && y == Some(TileB(c, id, it.t - 1)))
  }

  ghost predicate ItemsOk<T>(c: Launch<T>, s: State<T>)
    requires Shape(c, s)
  {
    forall id | IsItem(c, id) :: ItemOk(c, id, s.items[id])
  }

  ghost predicate PairsOk<T>(c: Launch<T>, s: State<T>)
    requires Shape(c, s)
  {
    forall id, o | IsItem(c, id) && IsItem(c, o) && id.Mate(o) :: PairOk(s.items[id], s.items[o])
  }

  ghost predicate CellsOk<T>(c: Launch<T>, s: State<T>)
    requires Shape(c, s) && ItemsOk(c, s)
  {
    forall id | IsItem(c, id) ::
      s.items[id].t <= c.Tiles() && CellOk(c, id, s.items[id], s.asub[id.Own()], s.bsub[id.Own()])
  }

  /** A stored result is the item's sum. */
  ghost predicate OutsOk<T>(c: Launch<T>, s: State<T>)
    requires Shape(c, s)
  {
    forall id | IsItem(c, id) :: s.items[id].stage == Stored ==> s.out[Place(c, id)] == s.items[id].acc
  }

  ghost predicate Inv<T>(c: Launch<T>, s: State<T>) {
    && Shape(c, s) && !s.fault
    && ItemsOk(c, s) && PairsOk(c, s) && CellsOk(c, s) && OutsOk(c, s)
  }

  // ----- every step keeps the invariant -----

  lemma PartialStart<T>(c: Launch<T>, id: Id)
    requires c.Valid() && IsItem(c, id)
    ensures Partial(c, id, 0, 0) == c.ops.zero
  {
    assert c.ts * 0 == 0;
  }

  /** One more term: the cells it needs were loaded by two items of the group. */
  lemma PartialGrows<T>(c: Launch<T>, id: Id, t: nat, k: nat)
    requires c.Valid() && IsItem(c, id) && t < c.Tiles() && k < c.ts
    ensures Partial(c, id, t, k + 1) ==
            c.ops.add(Partial(c, id, t, k), c.ops.mul(TileA(c, id.At(id.r, k), t), TileB(c, id.At(k, id.c), t)))
  {
    TileBound(c, t, k);
    TileBound(c, t, k + 1);
  }

  lemma PartialTile<T>(c: Launch<T>, id: Id, t: nat)
    requires c.Valid() && IsItem(c, id) && t < c.Tiles()
    ensures Partial(c, id, t, c.ts) == Partial(c, id, t + 1, 0)
  {
    assert c.ts * (t + 1) + 0 == c.ts * t + c.ts;
  }

  lemma InitialInv<T>(c: Launch<T>, s: State<T>)
    requires Initial(c, s)
    ensures Inv(c, s)
  {
    forall id | IsItem(c, id) ensures ItemOk(c, id, s.items[id]) { PartialStart(c, id); }
  }

  /** While an item works on a tile, every mate's cells hold that tile. */
  lemma LoadedBy<T>(c: Launch<T>, s: State<T>, id: Id, o: Id)
    requires Inv(c, s) && IsItem(c, id) && Enabled(c, s, id) && IsItem(c, o) && o.Mate(id)
    requires s.items[id].stage == Work && s.items[id].t < c.Tiles()
    ensures s.asub[o.Own()] == Some(TileA(c, o, s.items[id].t)) && s.bsub[o.Own()] == Some(TileB(c, o, s.items[id].t))
  {
    hide TileA, TileB, Partial, Act;
    assert PairOk(s.items[o], s.items[id]);
    assert ItemOk(c, o, s.items[o]) && ItemOk(c, id, s.items[id]);
    assert CellOk(c, o, s.items[o], s.asub[o.Own()], s.bsub[o.Own()]);
    assert s.items[o].Phase() >= s.items[id].Phase();
  }

  /** What a step makes of the item that takes it; everybody else keeps item and cells. */
  lemma Effect<T>(c: Launch<T>, s: State<T>, id: Id)
    requires Inv(c, s) && IsItem(c, id) && Enabled(c, s, id)
    ensures
      var it, s1 := s.items[id], Act(c, s, id);
      && !s1.fault && Shape(c, s1)
      && s1.items == s.items[id := s1.items[id]]
      && s1.asub == s.asub[id.Own() := s1.asub[id.Own()]]
      && s1.bsub == s.bsub[id.Own() := s1.bsub[id.Own()]]
      && (if it.t == c.Tiles() then
            s1.items[id] == it.(stage := Stored) && s1.out == s.out[Place(c, id) := it.acc]
          else
            s1.out == s.out &&
            if it.stage == LoadA then
              s1.items[id] == it.(stage := LoadB) && s1.asub[id.Own()] == Some(TileA(c, id, it.t)) &&
              s1.bsub[id.Own()] == s.bsub[id.Own()]
            else if it.stage == LoadB then
              s1.items[id] == it.(stage := Work) && s1.bsub[id.Own()] == Some(TileB(c, id, it.t)) &&
              s1.asub[id.Own()] == s.asub[id.Own()]
            else
              s1.asub[id.Own()] == s.asub[id.Own()] && s1.bsub[id.Own()] == s.bsub[id.Own()] &&
              if it.k < c.ts then
                s1.items[id] == it.(k := it.k + 1,
                  acc := c.ops.add(it.acc,
                    c.ops.mul(TileA(c, id.At(id.r, it.k), it.t), TileB(c, id.At(it.k, id.c), it.t))))
              else s1.items[id] == Item(it.t + 1, LoadA, 0, it.acc))
  {
    hide TileA, TileB, Partial, ItemOk, CellOk, PairOk;
    ActShape(c, s, id);
    var it := s.items[id];
    if it.t < c.Tiles() && it.stage == Work && it.k < c.ts {
      LoadedBy(c, s, id, id.At(id.r, it.k));
      LoadedBy(c, s, id, id.At(it.k, id.c));
    }
  }

  lemma Own<T>(c: Launch<T>, s: State<T>, id: Id)
    requires Inv(c, s) && IsItem(c, id)
    ensures Shape(c, s) && ItemOk(c, id, s.items[id]) && CellOk(c, id, s.items[id], s.asub[id.Own()], s.bsub[id.Own()])
  {
    hide ItemOk, CellOk, PairOk;
    assert ItemOk(c, id, s.items[id]);
  }

  lemma MoverKept<T>(c: Launch<T>, s: State<T>, id: Id)
    requires Inv(c, s) && IsItem(c, id) && Enabled(c, s, id)
    ensures
      var s1 := Act(c, s, id);
      id in s1.items && id.Own() in s1.asub && id.Own() in s1.bsub &&
      ItemOk(c, id, s1.items[id]) && CellOk(c, id, s1.items[id], s1.asub[id.Own()], s1.bsub[id.Own()])
  {
    hide TileA, TileB, Partial, Act, Inv, Enabled, Place;
    Own(c, s, id);
    Effect(c, s, id);
    var it := s.items[id];
    if it.t < c.Tiles() && it.stage == Work {
      if it.k < c.ts { PartialGrows(c, id, it.t, it.k); } else { PartialTile(c, id, it.t); }
    }
  }

  lemma PairsKept<T>(c: Launch<T>, s: State<T>, id: Id)
    requires Inv(c, s) && IsItem(c, id) && Enabled(c, s, id)
    ensures Shape(c, Act(c, s, id)) && PairsOk(c, Act(c, s, id))
  {
    hide TileA, TileB, Partial, Act, CellOk;
    Effect(c, s, id);
    var s1 := Act(c, s, id);
    forall x, y | IsItem(c, x) && IsItem(c, y) && x.Mate(y) ensures PairOk(s1.items[x], s1.items[y]) {
      assert PairOk(s.items[x], s.items[y]) && PairOk(s.items[y], s.items[x]);
      assert ItemOk(c, x, s.items[x]) && ItemOk(c, y, s.items[y]);
      if x == id { assert s.items[y].Phase() >= s.items[id].Phase(); }
    }
  }

  /** Each item has its own element of the result. */
  lemma SamePlace<T>(c: Launch<T>, id: Id, o: Id)
    requires c.Valid() && IsItem(c, id) && IsItem(c, o) && Place(c, o) == Place(c, id)
    ensures o == id
  {
    IndexInjective(Row(c, o), Col(c, o), Row(c, id), Col(c, id), c.cols);
    IndexInjective(o.gr, o.r, id.gr, id.r, c.ts);
    IndexInjective(o.gc, o.c, id.gc, id.c, c.ts);
  }

  lemma OutsKept<T>(c: Launch<T>, s: State<T>, id: Id)
    requires Inv(c, s) && IsItem(c, id) && Enabled(c, s, id)
    ensures Shape(c, Act(c, s, id)) && OutsOk(c, Act(c, s, id))
  {
    hide TileA, TileB, Partial, Act, CellOk, ItemOk, PairOk, Place;
    Effect(c, s, id);
    var s1 := Act(c, s, id);
    forall o | IsItem(c, o) ensures s1.items[o].stage == Stored ==> s1.out[Place(c, o)] == s1.items[o].acc {
      if o != id && Place(c, o) == Place(c, id) { SamePlace(c, id, o); }
    }
  }

  lemma StepKeepsInv<T>(c: Launch<T>, s: State<T>, id: Id)
    requires Inv(c, s) && IsItem(c, id) && Enabled(c, s, id)
    ensures Inv(c, Act(c, s, id))
  {
    hide TileA, TileB, Partial, Act, CellOk, ItemOk, PairOk, PairsOk, OutsOk;
    Effect(c, s, id);
    PairsKept(c, s, id);
    OutsKept(c, s, id);
    MoverKept(c, s, id);
    var s1 := Act(c, s, id);
    forall o | IsItem(c, o) ensures ItemOk(c, o, s1.items[o]) { assert ItemOk(c, o, s.items[o]); }
    forall o | IsItem(c, o)
      ensures s1.items[o].t <= c.Tiles() && CellOk(c, o, s1.items[o], s1.asub[o.Own()], s1.bsub[o.Own()])
    {
      assert ItemOk(c, o, s1.items[o]);
      TilesOk(c, o, s1.items[o]);
      if o != id { assert CellOk(c, o, s.items[o], s.asub[o.Own()], s.bsub[o.Own()]); }
    }
  }

  lemma TilesOk<T>(c: Launch<T>, id: Id, it: Item<T>)
    requires c.Valid() && IsItem(c, id) && ItemOk(c, id, it)
    ensures it.t <= c.Tiles()
  {
  }

  /** Which stages go with which tiles. */
  lemma Stages<T>(c: Launch<T>, s: State<T>, id: Id)
    requires Inv(c, s) && IsItem(c, id)
    ensures Shape(c, s)
    ensures
      var it := s.items[id];
      && it.t <= c.Tiles()
      && (it.stage == LoadB || it.stage == Work ==> it.t < c.Tiles())
      && (it.stage == Stored ==> it.t == c.Tiles())
  {
    hide Partial;
    assert ItemOk(c, id, s.items[id]);
  }

  // ----- whole runs -----

  ghost predicate IsRun<T>(c: Launch<T>, run: seq<State<T>>) {
    && run != [] && Initial(c, run[0])
    && (forall i | 0 <= i < |run| :: Shape(c, run[i]))
    && forall i | 0 <= i < |run| - 1 :: Next(c, run[i], run[i + 1])
  }

  lemma {:induction false} RunInv<T>(c: Launch<T>, run: seq<State<T>>, n: nat)
    requires IsRun(c, run) && n < |run|
    ensures Inv(c, run[n])
  {
    if n == 0 {
      InitialInv(c, run[0]);
    } else {
      RunInv(c, run, n - 1);
      assert Next(c, run[n - 1], run[n - 1 + 1]);
      var id :| IsItem(c, id) && Enabled(c, run[n - 1], id) && run[n] == Act(c, run[n - 1], id);
      StepKeepsInv(c, run[n - 1], id);
    }
  }

  /** `out` is the product of `a` and `b`, `n` terms to an element. */
  ghost predicate IsProduct<T>(c: Launch<T>, out: seq<T>, n: nat)
    requires c.Valid() && n <= c.inner
  {
    && |out| == c.rows * c.cols
    && forall i: nat, j: nat | i < c.rows && j < c.cols :: ElementIs(c, out, n, i, j)
  }

  predicate ElementIs<T(==)>(c: Launch<T>, out: seq<T>, n: nat, i: nat, j: nat)
    requires c.Valid() && n <= c.inner && |out| == c.rows * c.cols && i < c.rows && j < c.cols
  {
    IndexBound(i, j, c.rows, c.cols);
    out[i * c.cols + j] == Dot(c, i, j, n)
  }

  lemma {:induction false} ProductUnique<T>(c: Launch<T>, out1: seq<T>, out2: seq<T>, n: nat)
    requires c.Valid() && n <= c.inner && IsProduct(c, out1, n) && IsProduct(c, out2, n)
    ensures out1 == out2
  {
    forall x | 0 <= x < |out1| ensures out1[x] == out2[x] {
      var i, j := IndexSplit(x, c.rows, c.cols);
      assert ElementIs(c, out1, n, i, j) && ElementIs(c, out2, n, i, j);
    }
  }

  lemma WholeTiles<T>(c: Launch<T>)
    requires c.Valid()
    ensures c.ts * c.Tiles() <= c.inner
    ensures c.ts * c.Tiles() == c.inner <==> c.inner % c.ts == 0
  {
    assert c.inner == c.ts * c.Tiles() + c.inner % c.ts;
  }

  /** However the items interleave, the kernel's result has the terms of all whole tiles, each
      element summed from the left. */
  lemma TiledResult<T>(c: Launch<T>, run: seq<State<T>>)
    requires IsRun(c, run) && Finished(c, run[|run| - 1])
    ensures c.ts * c.Tiles() <= c.inner && IsProduct(c, run[|run| - 1].out, c.ts * c.Tiles())
  {
    var s := run[|run| - 1];
    RunInv(c, run, |run| - 1);
    WholeTiles(c);
    forall i: nat, j: nat | i < c.rows && j < c.cols ensures ElementIs(c, s.out, c.ts * c.Tiles(), i, j) {
      var gr, r := IndexSplit(i, c.gx, c.ts);
      var gc, q := IndexSplit(j, c.gy, c.ts);
      var id := Id(gr, gc, r, q);
      assert Row(c, id) == i && Col(c, id) == j;
      StoredResult(c, s, id);
    }
  }

  lemma StoredResult<T>(c: Launch<T>, s: State<T>, id: Id)
    requires Inv(c, s) && IsItem(c, id) && s.items[id].stage == Stored
    ensures Shape(c, s) && s.out[Place(c, id)] == Partial(c, id, c.Tiles(), 0)
  {
    assert ItemOk(c, id, s.items[id]);
  }

  /** With TS dividing AY, the tiled kernel's result is the product, and so the same array as any
      other kernel that computes the product. */
  lemma TiledIsSimple<T>(c: Launch<T>, run: seq<State<T>>, simple: seq<T>)
    requires IsRun(c, run) && Finished(c, run[|run| - 1])
    requires c.inner % c.ts == 0 && IsProduct(c, simple, c.inner)
    ensures run[|run| - 1].out == simple
  {
    WholeTiles(c);
    TiledResult(c, run);
    ProductUnique(c, run[|run| - 1].out, simple, c.inner);
  }

  /** No data race in local memory: while one item can work on a tile, no mate can write a cell. */
  lemma NoRace<T>(c: Launch<T>, run: seq<State<T>>, n: nat, id: Id, o: Id)
    requires IsRun(c, run) && n < |run| && IsItem(c, id) && IsItem(c, o) && o.Mate(id)
    requires Enabled(c, run[n], id) && Enabled(c, run[n], o) && run[n].items[id].stage == Work
    ensures Act(c, run[n], o).asub == run[n].asub && Act(c, run[n], o).bsub == run[n].bsub
  {
    hide TileA, TileB, Inv, IsRun;
    RunInv(c, run, n);
    Stages(c, run[n], id);
    Stages(c, run[n], o);
  }

  /** Two items never write the same cell or the same element of the result. */
  lemma OwnCells<T>(c: Launch<T>, run: seq<State<T>>, n: nat, id: Id, o: Id)
    requires IsRun(c, run) && n < |run| && IsItem(c, id) && IsItem(c, o) && o != id && Enabled(c, run[n], id)
    ensures
      var s1 := Act(c, run[n], id);
      Shape(c, s1) && s1.asub[o.Own()] == run[n].asub[o.Own()] && s1.bsub[o.Own()] == run[n].bsub[o.Own()]
      && s1.out[Place(c, o)] == run[n].out[Place(c, o)]
  {
    RunInv(c, run, n);
    Effect(c, run[n], id);
    if Place(c, o) == Place(c, id) { SamePlace(c, id, o); }
  }

  // ----- progress -----

  /** A slowest item of the group among its places up to (r, q), row by row. */
  lemma {:induction false} Slowest<T>(c: Launch<T>, s: State<T>, gr: nat, gc: nat, r: nat, q: nat) returns (id: Id)
    requires Shape(c, s) && gr < c.gx && gc < c.gy && r < c.ts && q < c.ts
    ensures IsItem(c, id) && id.gr == gr && id.gc == gc
    ensures forall o | IsItem(c, o) && o.gr == gr && o.gc == gc && (o.r < r || (o.r == r && o.c <= q)) ::
              s.items[o].Phase() >= s.items[id].Phase()
    decreases r, q
  {
    id := Id(gr, gc, r, q);
    if q > 0 || r > 0 {
      var before;
      if q > 0 { before := Slowest(c, s, gr, gc, r, q - 1); } else { before := Slowest(c, s, gr, gc, r - 1, c.ts - 1); }
      if s.items[before].Phase() < s.items[id].Phase() { id := before; }
    }
  }

  ghost predicate CanMove<T>(c: Launch<T>, s: State<T>)
    requires Shape(c, s)
  {
    exists id :: IsItem(c, id) && Enabled(c, s, id)
  }

  /** The barriers cannot deadlock: a run can go on exactly while some item has not stored its result. */
  lemma StopsWhenFinished<T>(c: Launch<T>, run: seq<State<T>>, n: nat)
    requires IsRun(c, run) && n < |run|
    ensures CanMove(c, run[n]) <==> !Finished(c, run[n])
  {
    var s := run[n];
    RunInv(c, run, n);
    hide Inv, IsRun;
    if !Finished(c, s) {
      var id :| IsItem(c, id) && s.items[id].stage != Stored;
      var slow := Slowest(c, s, id.gr, id.gc, c.ts - 1, c.ts - 1);
      Stages(c, s, id);
      Stages(c, s, slow);
      assert s.items[slow].Phase() <= s.items[id].Phase();
      assert Enabled(c, s, slow);
    }
    if CanMove(c, s) {
      var id :| IsItem(c, id) && Enabled(c, s, id);
      assert s.items[id].stage != Stored;
    }
  }

  // ----- every run ends -----

  function Rounds(t: nat, w: nat): nat {
    t * w
  }

  lemma RoundsNext(t: nat, w: nat)
    ensures Rounds(t + 1, w) == Rounds(t, w) + w
  {
  }

  /** How many steps an item has taken. */
  function Progress<T>(c: Launch<T>, it: Item<T>): nat {
    Rounds(it.t, c.ts + 3) + match it.stage
      case LoadA => 0
      case LoadB => 1
      case Work => 2 + it.k
      case Stored => 1
  }

  /** No item takes more steps than this. */
  function MostSteps<T>(c: Launch<T>): nat
    requires c.Valid()
  {
    Rounds(c.Tiles(), c.ts + 3) + 1
  }

  /** All steps that can ever be taken, each as an item and the number of the step. */
  function AllSteps<T>(c: Launch<T>, ids: set<Id>): set<(Id, nat)>
    requires c.Valid()
  {
    set id <- ids, j: nat | 0 <= j < MostSteps(c) :: (id, j)
  }

  ghost function Taken<T>(c: Launch<T>, s: State<T>): set<(Id, nat)>
    requires Shape(c, s)
  {
    set p | p in AllSteps(c, s.items.Keys) && p.1 < Progress(c, s.items[p.0])
  }

  lemma ProgressBound<T>(c: Launch<T>, id: Id, it: Item<T>)
    requires c.Valid() && IsItem(c, id) && ItemOk(c, id, it)
    ensures Progress(c, it) <= MostSteps(c)
    ensures it.stage != Stored ==> Progress(c, it) < MostSteps(c)
  {
    hide Partial;
    var steps := Progress(c, it) - Rounds(it.t, c.ts + 3);
    if it.t < c.Tiles() { WithinRound(it.t, c.Tiles(), c.ts + 3, steps); }
  }

  lemma WithinRound(t: nat, tiles: nat, w: nat, steps: nat)
    requires t < tiles && steps < w
    ensures Rounds(t, w) + steps < Rounds(tiles, w)
  {
    MulMono(w, t + 1, tiles);
    assert (t + 1) * w == t * w + w;
  }

  /** What a step does to the counters of an item. */
  predicate Moves<T>(c: Launch<T>, it: Item<T>, it1: Item<T>)
    requires c.Valid()
  {
    if it.t == c.Tiles() then it.stage == LoadA && it1.t == it.t && it1.stage == Stored
    else if it.stage == LoadA then it1.t == it.t && it1.stage == LoadB
    else if it.stage == LoadB then it1.t == it.t && it1.stage == Work && it.k == 0 && it1.k == 0
    else if it.k < c.ts then it.stage == Work && it1.t == it.t && it1.stage == Work && it1.k == it.k + 1
    else it.stage == Work && it.k == c.ts && it1.t == it.t + 1 && it1.stage == LoadA
  }

  lemma StepMoves<T>(c: Launch<T>, s: State<T>, id: Id)
    requires Inv(c, s) && IsItem(c, id) && Enabled(c, s, id)
    ensures Shape(c, Act(c, s, id)) && Moves(c, s.items[id], Act(c, s, id).items[id])
    ensures Act(c, s, id).items == s.items[id := Act(c, s, id).items[id]]
  {
    hide Act, Partial, CellOk, PairsOk, CellsOk, OutsOk, TileA, TileB, Place;
    Effect(c, s, id);
    assert ItemOk(c, id, s.items[id]);
  }

  lemma ProgressGrows<T>(c: Launch<T>, it: Item<T>, it1: Item<T>)
    requires c.Valid() && Moves(c, it, it1)
    ensures Progress(c, it1) == Progress(c, it) + 1
  {
    hide Rounds;
    RoundsNext(it.t, c.ts + 3);
  }

  /** A step adds to what has been taken and takes nothing back. */
  lemma StepIsTaken<T>(c: Launch<T>, s: State<T>, id: Id)
    requires Inv(c, s) && IsItem(c, id) && Enabled(c, s, id)
    ensures Shape(c, Act(c, s, id))
    ensures (id, Progress(c, s.items[id])) in Taken(c, Act(c, s, id))
    ensures Taken(c, s) <= Taken(c, Act(c, s, id)) - {(id, Progress(c, s.items[id]))}
  {
    hide Act, Partial, CellOk, PairsOk, CellsOk, OutsOk, TileA, TileB, Place, MostSteps, Moves, Progress, Enabled;
    StepMoves(c, s, id);
    var s1 := Act(c, s, id);
    var it, it1 := s.items[id], s1.items[id];
    assert ItemOk(c, id, it);
    MoversNotDone(c, s, id);
    ProgressBound(c, id, it);
    ProgressGrows(c, it, it1);
    assert s1.items.Keys == s.items.Keys;
    assert (id, Progress(c, it)) in AllSteps(c, s1.items.Keys);
    forall p | p in Taken(c, s) ensures p in Taken(c, s1) && p != (id, Progress(c, it)) {
      assert p.0 != id ==> s1.items[p.0] == s.items[p.0];
    }
  }

  lemma MoversNotDone<T>(c: Launch<T>, s: State<T>, id: Id)
    requires Shape(c, s) && IsItem(c, id) && Enabled(c, s, id)
    ensures s.items[id].stage != Stored
  {
  }

  /** Every run is finite: it cannot have more steps than its items have in all. */
  lemma {:induction false} RunIsBounded<T>(c: Launch<T>, run: seq<State<T>>, n: nat)
    requires IsRun(c, run) && n < |run|
    ensures Shape(c, run[n]) && n <= |Taken(c, run[n])| <= |AllSteps(c, run[n].items.Keys)|
    ensures run[n].items.Keys == run[0].items.Keys
  {
    hide Inv, Act, Progress, Initial, MostSteps;
    assert Shape(c, run[0]) && Shape(c, run[n]);
    SameIds(c, run[0], run[n]);
    SubsetSize(Taken(c, run[n]), AllSteps(c, run[n].items.Keys));
    if n > 0 {
      RunIsBounded(c, run, n - 1);
      RunInv(c, run, n - 1);
      assert Next(c, run[n - 1], run[n - 1 + 1]);
      var id :| IsItem(c, id) && Enabled(c, run[n - 1], id) && run[n] == Act(c, run[n - 1], id);
      OneMoreTaken(c, run[n - 1], id);
    }
  }

  lemma SameIds<T>(c: Launch<T>, s: State<T>, s1: State<T>)
    requires Shape(c, s) && Shape(c, s1)
    ensures s.items.Keys == s1.items.Keys
  {
  }

  lemma OneMoreTaken<T>(c: Launch<T>, s: State<T>, id: Id)
    requires Inv(c, s) && IsItem(c, id) && Enabled(c, s, id)
    ensures Shape(c, Act(c, s, id)) && |Taken(c, Act(c, s, id))| >= |Taken(c, s)| + 1
  {
    hide Act, Taken, Progress, Enabled, ItemsOk, PairsOk, CellsOk, OutsOk;
    StepIsTaken(c, s, id);
    var x := (id, Progress(c, s.items[id]));
    SubsetSize(Taken(c, s), Taken(c, Act(c, s, id)) - {x});
  }

  // ----- the other ways to the product -----

  /** One item of the simple kernel: its own loop, its own element. */
  method SimpleItem<T>(c: Launch<T>, row: nat, col: nat, out: array<T>)
    requires c.Valid() && out.Length == c.rows * c.cols && row < c.rows && col < c.cols
    modifies out
    ensures ElementIs(c, out[..], c.inner, row, col)
    ensures forall i: nat, j: nat | i < c.rows && j < c.cols && (i != row || j != col) ::
              ElementIs(c, old(out[..]), c.inner, i, j) ==> ElementIs(c, out[..], c.inner, i, j)
  {
    var sum := c.ops.zero;
    var k := 0;
    while k < c.inner
      invariant k <= c.inner && sum == Dot(c, row, col, k)
      invariant out[..] == old(out[..])
    {
      IndexBound(row, k, c.rows, c.inner);
      IndexBound(k, col, c.inner, c.cols);
      sum := c.ops.add(sum, c.ops.mul(c.a[row * c.inner + k], c.b[k * c.cols + col]));
      k := k + 1;
    }
    IndexBound(row, col, c.rows, c.cols);
    out[row * c.cols + col] := sum;
    forall i: nat, j: nat | i < c.rows && j < c.cols && (i != row || j != col)
      ensures ElementIs(c, old(out[..]), c.inner, i, j) ==> ElementIs(c, out[..], c.inner, i, j)
    {
      IndexBound(i, j, c.rows, c.cols);
      if i * c.cols + j == row * c.cols + col { IndexInjective(i, j, row, col, c.cols); }
    }
  }

  /** The simple kernel, its items run in whatever order. */
  method SimpleKernel<T>(c: Launch<T>, order: seq<(nat, nat)>, out: array<T>)
    requires c.Valid() && out.Length == c.rows * c.cols
    requires forall p <- order :: p.0 < c.rows && p.1 < c.cols
    requires forall i: nat, j: nat | i < c.rows && j < c.cols :: (i, j) in order
    modifies out
    ensures IsProduct(c, out[..], c.inner)
  {
    var n := 0;
    while n < |order|
      invariant n <= |order|
      invariant forall p <- order[..n] :: p in order && ElementIs(c, out[..], c.inner, p.0, p.1)
    {
      assert order[n] in order;
      SimpleItem(c, order[n].0, order[n].1, out);
      assert order[..n + 1] == order[..n] + [order[n]];
      n := n + 1;
    }
    forall i: nat, j: nat | i < c.rows && j < c.cols ensures ElementIs(c, out[..], c.inner, i, j) {
      assert (i, j) in order[..n];
    }
  }

  /** Rows `0..i` are done, and of row `i` the first `j` elements. */
  ghost predicate DoneTo<T>(c: Launch<T>, out: seq<T>, i: nat, j: nat)
    requires c.Valid() && |out| == c.rows * c.cols
  {
    forall p: nat, q: nat | p < c.rows && q < c.cols && (p < i || (p == i && q < j)) :: ElementIs(c, out, c.inner, p, q)
  }

  lemma DoneOne<T>(c: Launch<T>, before: seq<T>, out: seq<T>, i: nat, j: nat)
    requires c.Valid() && |before| == |out| == c.rows * c.cols && i < c.rows && j < c.cols
    requires DoneTo(c, before, i, j) && 0 <= i * c.cols + j < |out|
    requires out == before[i * c.cols + j := Dot(c, i, j, c.inner)]
    ensures DoneTo(c, out, i, j + 1)
  {
    forall p: nat, q: nat | p < c.rows && q < c.cols && (p < i || (p == i && q < j + 1))
      ensures ElementIs(c, out, c.inner, p, q)
    {
      IndexBound(p, q, c.rows, c.cols);
      if p != i || q != j {
        assert ElementIs(c, before, c.inner, p, q);
        if p * c.cols + q == i * c.cols + j { IndexInjective(p, q, i, j, c.cols); }
      }
    }
  }

  /** `matrix_mult_ref`. */
  method MatrixMultRef<T>(c: Launch<T>, out: array<T>)
    requires c.Valid() && out.Length == c.rows * c.cols
    modifies out
    ensures IsProduct(c, out[..], c.inner)
  {
    var i := 0;
    while i < c.rows
      invariant i <= c.rows && DoneTo(c, out[..], i, 0)
    {
      var j := 0;
      while j < c.cols
        invariant j <= c.cols && DoneTo(c, out[..], i, j)
      {
        IndexBound(i, j, c.rows, c.cols);
        ghost var before := out[..];
        var acc := RowTimesColumn(c, i, j);
        out[i * c.cols + j] := acc;
        DoneOne(c, before, out[..], i, j);
        j := j + 1;
      }
      i := i + 1;
    }
  }

  /** The innermost loop. */
  method RowTimesColumn<T>(c: Launch<T>, i: nat, j: nat) returns (acc: T)
    requires c.Valid() && i < c.rows && j < c.cols
    ensures acc == Dot(c, i, j, c.inner)
  {
    acc := c.ops.zero;
    var k := 0;
    while k < c.inner
      invariant k <= c.inner && acc == Dot(c, i, j, k)
    {
      IndexBound(i, k, c.rows, c.inner);
      IndexBound(k, j, c.inner, c.cols);
      acc := c.ops.add(acc, c.ops.mul(c.a[i * c.inner + k], c.b[k * c.cols + j]));
      k := k + 1;
    }
  }

  /** `tmp` is the transpose of b, for its first `i` rows and `j` elements of row `i`. */
  ghost predicate TransposedTo<T>(c: Launch<T>, tmp: seq<T>, i: nat, j: nat)
    requires c.Valid() && |tmp| == c.cols * c.inner
  {
    forall p: nat, q: nat | p < c.inner && q < c.cols && (p < i || (p == i && q < j)) :: TransposedAt(c, tmp, p, q)
  }

  ghost predicate TransposedAt<T>(c: Launch<T>, tmp: seq<T>, p: nat, q: nat)
    requires c.Valid() && |tmp| == c.cols * c.inner && p < c.inner && q < c.cols
  {
    IndexBound(q, p, c.cols, c.inner);
    tmp[q * c.inner + p] == ElemB(c, p, q)
  }

  lemma TransposedOne<T>(c: Launch<T>, before: seq<T>, tmp: seq<T>, i: nat, j: nat)
    requires c.Valid() && |before| == |tmp| == c.cols * c.inner && i < c.inner && j < c.cols
    requires TransposedTo(c, before, i, j) && 0 <= j * c.inner + i < |tmp|
    requires tmp == before[j * c.inner + i := ElemB(c, i, j)]
    ensures TransposedTo(c, tmp, i, j + 1)
  {
    forall p: nat, q: nat | p < c.inner && q < c.cols && (p < i || (p == i && q < j + 1))
      ensures TransposedAt(c, tmp, p, q)
    {
      IndexBound(q, p, c.cols, c.inner);
      if p != i || q != j {
        assert TransposedAt(c, before, p, q);
        if q * c.inner + p == j * c.inner + i { IndexInjective(q, p, j, i, c.inner); }
      }
    }
  }

  /** `transpose_mult_ref`: the cache-friendly version agrees with the basic one. */
  method TransposeMultRef<T>(c: Launch<T>, out: array<T>)
    requires c.Valid() && out.Length == c.rows * c.cols
    modifies out
    ensures IsProduct(c, out[..], c.inner)
  {
    var tmp := new T[c.cols * c.inner](_ => c.ops.zero);
    var i := 0;
    while i < c.inner
      invariant i <= c.inner && TransposedTo(c, tmp[..], i, 0)
    {
      var j := 0;
      while j < c.cols
        invariant j <= c.cols && TransposedTo(c, tmp[..], i, j)
      {
        IndexBound(j, i, c.cols, c.inner);
        IndexBound(i, j, c.inner, c.cols);
        ghost var before := tmp[..];
        tmp[j * c.inner + i] := c.b[i * c.cols + j];
        TransposedOne(c, before, tmp[..], i, j);
        j := j + 1;
      }
      i := i + 1;
    }
    i := 0;
    while i < c.rows
      invariant i <= c.rows && DoneTo(c, out[..], i, 0) && TransposedTo(c, tmp[..], c.inner, 0)
    {
      var j := 0;
      while j < c.cols
        invariant j <= c.cols && DoneTo(c, out[..], i, j) && TransposedTo(c, tmp[..], c.inner, 0)
      {
        IndexBound(i, j, c.rows, c.cols);
        ghost var before := out[..];
        var acc := RowTimesRow(c, tmp[..], i, j);
        out[i * c.cols + j] := acc;
        DoneOne(c, before, out[..], i, j);
        j := j + 1;
      }
      i := i + 1;
    }
  }

  method RowTimesRow<T>(c: Launch<T>, tmp: seq<T>, i: nat, j: nat) returns (acc: T)
    requires c.Valid() && i < c.rows && j < c.cols && |tmp| == c.cols * c.inner && TransposedTo(c, tmp, c.inner, 0)
    ensures acc == Dot(c, i, j, c.inner)
  {
    acc := c.ops.zero;
    var k := 0;
    while k < c.inner
      invariant k <= c.inner && acc == Dot(c, i, j, k)
    {
      IndexBound(i, k, c.rows, c.inner);
      IndexBound(j, k, c.cols, c.inner);
      assert TransposedAt(c, tmp, k, j);
      acc := c.ops.add(acc, c.ops.mul(c.a[i * c.inner + k], tmp[j * c.inner + k]));
      k := k + 1;
    }
  }

  // ----- when TS does not divide AY -----

  /** Integer arithmetic on matrices full of ones. */
  ghost predicate IsOnes(c: Launch<int>) {
    && c.ops.zero == 0
    && (forall x, y :: c.ops.add(x, y) == x + y)
    && (forall x, y :: c.ops.mul(x, y) == x * y)
    && (forall x <- c.a :: x == 1) && (forall x <- c.b :: x == 1)
  }

  lemma OnesExist(rows: nat, inner: nat, cols: nat, ts: nat, gx: nat, gy: nat) returns (c: Launch<int>)
    requires ts > 0 && rows == ts * gx && cols == ts * gy
    ensures c.Valid() && IsOnes(c) && c.rows == rows && c.inner == inner && c.cols == cols && c.ts == ts
  {
    c := Launch(Ops(0, (x, y) => x + y, (x, y) => x * y),
                seq(rows * inner, _ => 1), seq(inner * cols, _ => 1), rows, inner, cols, ts, gx, gy);
  }

  lemma {:induction false} OnesDot(c: Launch<int>, i: nat, j: nat, n: nat)
    requires c.Valid() && IsOnes(c) && i < c.rows && j < c.cols && n <= c.inner
    ensures Dot(c, i, j, n) == n
  {
    hide ElemA, ElemB, IsOnes;
    if n > 0 {
      OnesDot(c, i, j, n - 1);
      OnesElements(c, i, j, n - 1);
      OnesSum(c, n - 1);
    } else {
      OnesZero(c);
    }
  }

  lemma OnesZero(c: Launch<int>)
    requires IsOnes(c)
    ensures c.ops.zero == 0
  {
  }

  lemma OnesSum(c: Launch<int>, sum: int)
    requires IsOnes(c)
    ensures c.ops.add(sum, c.ops.mul(1, 1)) == sum + 1
  {
    assert c.ops.mul(1, 1) == 1 * 1;
  }

  lemma OnesElements(c: Launch<int>, i: nat, j: nat, k: nat)
    requires c.Valid() && IsOnes(c) && i < c.rows && j < c.cols && k < c.inner
    ensures ElemA(c, i, k) == 1 && ElemB(c, k, j) == 1
  {
    IndexBound(i, k, c.rows, c.inner);
    IndexBound(k, j, c.inner, c.cols);
    assert ElemA(c, i, k) in c.a && ElemB(c, k, j) in c.b;
  }

  /** The condition on AY is needed: whenever TS does not divide it, there are matrices (such as
      all ones) on which no finished run gives the product. */
  lemma TailIsLost(c: Launch<int>, run: seq<State<int>>)
    requires c.Valid() && IsOnes(c) && c.gx > 0 && c.gy > 0 && c.inner % c.ts != 0
    requires IsRun(c, run) && Finished(c, run[|run| - 1])
    ensures !IsProduct(c, run[|run| - 1].out, c.inner)
  {
    var out := run[|run| - 1].out;
    TiledResult(c, run);
    WholeTiles(c);
    IndexBound(0, 0, c.gx, c.ts);
    IndexBound(0, 0, c.gy, c.ts);
    assert ElementIs(c, out, c.ts * c.Tiles(), 0, 0);
    OnesDot(c, 0, 0, c.ts * c.Tiles());
    OnesDot(c, 0, 0, c.inner);
    assert !ElementIs(c, out, c.inner, 0, 0);
  }
}
