/** A blueprint: a dense box of block schematics indexed from the blueprint's
    minimum corner, plus a list of entity schematics. */
module Blueprint {
  import opened Seqs

  datatype Vec3 = Vec3(x: int, y: int, z: int) {
    function Plus(o: Vec3): Vec3 {
      Vec3(x + o.x, y + o.y, z + o.z)
    }

    function Minus(o: Vec3): Vec3 {
      Vec3(x - o.x, y - o.y, z - o.z)
    }
  }

  const One := Vec3(1, 1, 1)

  datatype Rotation = NoRotation | Clockwise90 | Clockwise180 | Counterclockwise90

  datatype Mirror = NoMirror | LeftRight | FrontBack

  /** A change applied to a schematic in place. */
  datatype Transform = Rotated(rotation: Rotation) | Moved(delta: Vec3)

  /** The Java exceptions the operations raise. */
  datatype Error = ArrayIndexOutOfBounds | AbstractMethodError

  datatype Result<T> = Success(value: T) | Failure(error: Error)

  /** A block or entity schematic. What rotating or translating does to its
      contents is not part of this model: it records the changes applied to it,
      in order. */
  class Schematic {
    var applied: seq<Transform>

    method Rotate(rotation: Rotation)
      modifies this
      ensures applied == old(applied) + [Rotated(rotation)]
    {
      applied := applied + [Rotated(rotation)];
    }

    method Translate(delta: Vec3)
      modifies this
      ensures applied == old(applied) + [Moved(delta)]
    {
      applied := applied + [Moved(delta)];
    }
  }

  type Grid = array3<Schematic?>

  predicate In(a: Grid, p: Vec3) {
    0 <= p.x < a.Length0 && 0 <= p.y < a.Length1 && 0 <= p.z < a.Length2
  }

  function At(a: Grid, p: Vec3): Schematic?
    reads a
    requires In(a, p)
  {
    a[p.x, p.y, p.z]
  }

  /** The schematics held by the grid. */
  ghost function CellSet(a: Grid): set<Schematic>
    reads a
  {
    set x, y, z | 0 <= x < a.Length0 && 0 <= y < a.Length1 && 0 <= z < a.Length2 && a[x, y, z] != null
      :: a[x, y, z] as Schematic
  }

  /** No schematic sits in two cells. */
  ghost predicate Distinct(a: Grid)
    reads a
  {
    forall p, q :: In(a, p) && In(a, q) && At(a, p) != null && At(a, p) == At(a, q) ==> p == q
  }

  /** Every cell holds a schematic. */
  ghost predicate Full(a: Grid)
    reads a
  {
    forall p :: In(a, p) ==> At(a, p) != null
  }

  /** Cell `p` comes before cell (x, y, z) in the x-outer, y-middle, z-inner walk. */
  predicate Before(p: Vec3, x: int, y: int, z: int) {
    p.x < x || (p.x == x && (p.y < y || (p.y == y && p.z < z)))
  }

  /** Where rotateContentsBy puts cell `p` of a grid whose last cell is `oldMax`. */
  function Landing(p: Vec3, rotation: Rotation, rotate: (Vec3, Rotation) -> Vec3, oldMax: Vec3): (r: Vec3)
    ensures r.Minus(rotate(p, rotation)) == rotate(oldMax, rotation).Minus(oldMax)
  {
    rotate(p, rotation).Plus(rotate(oldMax, rotation).Minus(oldMax))
  }

  /** Distinct cells of `a` land on distinct cells. */
  ghost predicate LandsApart(a: Grid, rotation: Rotation, rotate: (Vec3, Rotation) -> Vec3, oldMax: Vec3) {
    forall p, q :: In(a, p) && In(a, q) && Landing(p, rotation, rotate, oldMax) == Landing(q, rotation, rotate, oldMax) ==> p == q
  }

  /** Landing only shifts the rotated cell, so two cells land apart exactly
      when the rotation keeps them apart. */
  lemma LandsApartIff(a: Grid, rotation: Rotation, rotate: (Vec3, Rotation) -> Vec3, oldMax: Vec3)
    ensures LandsApart(a, rotation, rotate, oldMax) <==>
      forall p, q :: In(a, p) && In(a, q) && rotate(p, rotation) == rotate(q, rotation) ==> p == q
  {
    forall p, q | Landing(p, rotation, rotate, oldMax) == Landing(q, rotation, rotate, oldMax)
      ensures rotate(p, rotation) == rotate(q, rotation)
    {
      var d := rotate(oldMax, rotation).Minus(oldMax);
      assert Landing(p, rotation, rotate, oldMax).Minus(d) == rotate(p, rotation);
      assert Landing(q, rotation, rotate, oldMax).Minus(d) == rotate(q, rotation);
    }
  }

  /** Every cell of `a` lands inside `b`. */
  ghost predicate Lands(a: Grid, b: Grid, rotation: Rotation, rotate: (Vec3, Rotation) -> Vec3, oldMax: Vec3)
    reads a, b
  {
    forall p :: In(a, p) ==> In(b, Landing(p, rotation, rotate, oldMax))
  }

  /** Rotates the schematics of `a`, placing each in `b`. */
  method RotateGrid(a: Grid, b: Grid, rotation: Rotation, rotate: (Vec3, Rotation) -> Vec3, oldMax: Vec3)
    requires a != b && Full(a) && Distinct(a) && Lands(a, b, rotation, rotate, oldMax)
    modifies CellSet(a), b
    ensures forall p :: In(a, p) ==> At(a, p).applied == old(At(a, p).applied) + [Rotated(rotation)]
    ensures LandsApart(a, rotation, rotate, oldMax) ==> forall p :: In(a, p) ==>
      At(b, Landing(p, rotation, rotate, oldMax)) == At(a, p)
  {
    for x := 0 to a.Length0
      invariant forall p :: In(a, p) ==>
        At(a, p).applied == old(At(a, p).applied) + (if p.x < x then [Rotated(rotation)] else [])
      invariant LandsApart(a, rotation, rotate, oldMax) ==> forall p :: In(a, p) && p.x < x ==>
        At(b, Landing(p, rotation, rotate, oldMax)) == At(a, p)
    {
      RotateLayer(a, b, rotation, rotate, oldMax, x);
    }
  }

  /** Rotates the schematics of layer x of `a`, placing each in `b`. */
  method RotateLayer(a: Grid, b: Grid, rotation: Rotation, rotate: (Vec3, Rotation) -> Vec3, oldMax: Vec3, x: int)
    requires 0 <= x < a.Length0 && a != b && Full(a) && Distinct(a) && Lands(a, b, rotation, rotate, oldMax)
    modifies CellSet(a), b
    ensures forall p :: In(a, p) ==>
      At(a, p).applied == old(At(a, p).applied) + (if p.x == x then [Rotated(rotation)] else [])
    ensures LandsApart(a, rotation, rotate, oldMax) ==> forall p :: In(a, p) ==>
      At(b, Landing(p, rotation, rotate, oldMax)) ==
        if p.x == x then At(a, p) else old(At(b, Landing(p, rotation, rotate, oldMax)))
  {
    for y := 0 to a.Length1
      invariant forall p :: In(a, p) ==>
        At(a, p).applied == old(At(a, p).applied) + (if p.x == x && p.y < y then [Rotated(rotation)] else [])
      invariant LandsApart(a, rotation, rotate, oldMax) ==> forall p :: In(a, p) ==>
        At(b, Landing(p, rotation, rotate, oldMax)) ==
          if p.x == x && p.y < y then At(a, p) else old(At(b, Landing(p, rotation, rotate, oldMax)))
    {
      RotateRow(a, b, rotation, rotate, oldMax, x, y);
    }
  }

  /** Rotates the schematics of row (x, y) of `a`, placing each in `b`. */
  method RotateRow(a: Grid, b: Grid, rotation: Rotation, rotate: (Vec3, Rotation) -> Vec3, oldMax: Vec3, x: int, y: int)
    requires 0 <= x < a.Length0 && 0 <= y < a.Length1 && a != b && Full(a) && Distinct(a) && Lands(a, b, rotation, rotate, oldMax)
    modifies CellSet(a), b
    ensures forall p :: In(a, p) ==>
      At(a, p).applied == old(At(a, p).applied) + (if p.x == x && p.y == y then [Rotated(rotation)] else [])
    ensures LandsApart(a, rotation, rotate, oldMax) ==> forall p :: In(a, p) ==>
      At(b, Landing(p, rotation, rotate, oldMax)) ==
        if p.x == x && p.y == y then At(a, p) else old(At(b, Landing(p, rotation, rotate, oldMax)))
  {
    var arrayOffset := rotate(oldMax, rotation).Minus(oldMax);
    for z := 0 to a.Length2
      invariant forall p :: In(a, p) ==>
        At(a, p).applied == old(At(a, p).applied) + (if p.x == x && p.y == y && p.z < z then [Rotated(rotation)] else [])
      invariant LandsApart(a, rotation, rotate, oldMax) ==> forall p :: In(a, p) ==>
        At(b, Landing(p, rotation, rotate, oldMax)) ==
          if p.x == x && p.y == y && p.z < z then At(a, p) else old(At(b, Landing(p, rotation, rotate, oldMax)))
    {
      RotateCell(a, b, rotation, rotate, oldMax, arrayOffset, Vec3(x, y, z));
    }
  }

  /** Rotates the schematic of cell `original` of `a` and places it in `b`. */
  method RotateCell(a: Grid, b: Grid, rotation: Rotation, rotate: (Vec3, Rotation) -> Vec3, oldMax: Vec3,
                    arrayOffset: Vec3, original: Vec3)
    requires In(a, original) && a != b && Full(a) && Distinct(a) && Lands(a, b, rotation, rotate, oldMax)
    requires arrayOffset == rotate(oldMax, rotation).Minus(oldMax)
    modifies CellSet(a), b
    ensures forall p :: In(a, p) ==>
      At(a, p).applied == old(At(a, p).applied) + (if p == original then [Rotated(rotation)] else [])
    ensures LandsApart(a, rotation, rotate, oldMax) ==> forall p :: In(a, p) ==>
      At(b, Landing(p, rotation, rotate, oldMax)) ==
        if p == original then At(a, p) else old(At(b, Landing(p, rotation, rotate, oldMax)))
  {
    var schematic := At(a, original);
    schematic.Rotate(rotation);
    var rotated := rotate(original, rotation);
    rotated := rotated.Plus(arrayOffset);
    b[rotated.x, rotated.y, rotated.z] := schematic;
  }

  /** Translates the schematic of every non-empty cell of `a`. */
  method TranslateGrid(a: Grid, delta: Vec3)
    requires Distinct(a)
    modifies CellSet(a)
    ensures forall p :: In(a, p) && At(a, p) != null ==> At(a, p).applied == old(At(a, p).applied) + [Moved(delta)]
  {
    for x := 0 to a.Length0
      invariant forall p :: In(a, p) && At(a, p) != null ==>
        At(a, p).applied == old(At(a, p).applied) + (if p.x < x then [Moved(delta)] else [])
    {
      TranslateLayer(a, delta, x);
    }
  }

  method TranslateLayer(a: Grid, delta: Vec3, x: int)
    requires 0 <= x < a.Length0 && Distinct(a)
    modifies CellSet(a)
    ensures forall p :: In(a, p) && At(a, p) != null ==>
      At(a, p).applied == old(At(a, p).applied) + (if p.x == x then [Moved(delta)] else [])
  {
    for y := 0 to a.Length1
      invariant forall p :: In(a, p) && At(a, p) != null ==>
        At(a, p).applied == old(At(a, p).applied) + (if p.x == x && p.y < y then [Moved(delta)] else [])
    {
      TranslateRow(a, delta, x, y);
    }
  }

  method TranslateRow(a: Grid, delta: Vec3, x: int, y: int)
    requires 0 <= x < a.Length0 && 0 <= y < a.Length1 && Distinct(a)
    modifies CellSet(a)
    ensures forall p :: In(a, p) && At(a, p) != null ==>
      At(a, p).applied == old(At(a, p).applied) + (if p.x == x && p.y == y then [Moved(delta)] else [])
  {
    for z := 0 to a.Length2
      invariant forall p :: In(a, p) && At(a, p) != null ==>
        At(a, p).applied == old(At(a, p).applied) + (if p.x == x && p.y == y && p.z < z then [Moved(delta)] else [])
    {
      var schematic := At(a, Vec3(x, y, z));
      if schematic == null {
        continue;
      }
      schematic.Translate(delta);
    }
  }

  /** The tasks of every non-empty cell of `a`. */
  method CellTasks<B, T>(a: Grid, builder: B, tasksOf: (Schematic, B) -> T) returns (r: map<Schematic, T>)
    ensures r.Keys == CellSet(a)
    ensures forall s :: s in r ==> r[s] == tasksOf(s, builder)
  {
    r := map[];
    for x := 0 to a.Length0
      invariant forall s :: s in r ==> s in CellSet(a)
      invariant forall s :: s in r ==> r[s] == tasksOf(s, builder)
      invariant forall p :: In(a, p) && p.x < x && At(a, p) != null ==> At(a, p) in r
    {
      for y := 0 to a.Length1
        invariant forall s :: s in r ==> s in CellSet(a)
        invariant forall s :: s in r ==> r[s] == tasksOf(s, builder)
        invariant forall p :: In(a, p) && Before(p, x, y, 0) && At(a, p) != null ==> At(a, p) in r
      {
        for z := 0 to a.Length2
          invariant forall s :: s in r ==> s in CellSet(a)
          invariant forall s :: s in r ==> r[s] == tasksOf(s, builder)
          invariant forall p :: In(a, p) && Before(p, x, y, z) && At(a, p) != null ==> At(a, p) in r
        {
          var schematic := a[x, y, z];
          if schematic == null {
            continue;
          }
          assert schematic in CellSet(a);
          r := r[schematic := tasksOf(schematic, builder)];
        }
      }
    }
    forall s | s in CellSet(a) ensures s in r {
      var x, y, z :| 0 <= x < a.Length0 && 0 <= y < a.Length1 && 0 <= z < a.Length2 && a[x, y, z] == s;
      assert At(a, Vec3(x, y, z)) == s;
    }
  }

  // ---------------------------------------------------------------------------
  // The walk over a box of cells, x outermost and z innermost

  /** How many values `0 <= i <= last` there are. */
  function Count(last: int): nat {
    if last < 0 then 0 else last + 1
  }

  /** The cell at (x, y, z), or null outside the grid. */
  function CellAt(a: Grid, x: int, y: int, z: int): Schematic?
    reads a
  {
    if 0 <= x < a.Length0 && 0 <= y < a.Length1 && 0 <= z < a.Length2 then a[x, y, z] else null
  }

  /** The cells (x, y, z) with z below `nz`, in order. */
  function Row(a: Grid, x: int, y: int, nz: nat): (r: seq<Schematic?>)
    reads a
    ensures |r| == nz
  {
    if nz == 0 then [] else Row(a, x, y, nz - 1) + [CellAt(a, x, y, nz - 1)]
  }

  /** The rows of layer `x` with y below `ny`, in order. */
  function Layer(a: Grid, x: int, ny: nat, nz: nat): (r: seq<Schematic?>)
    reads a
    ensures |r| == ny * nz
  {
    if ny == 0 then [] else Layer(a, x, ny - 1, nz) + Row(a, x, ny - 1, nz)
  }

  /** The layers with x below `nx`, in order. */
  function Walk(a: Grid, nx: nat, ny: nat, nz: nat): (r: seq<Schematic?>)
    reads a
    ensures |r| == nx * (ny * nz)
  {
    if nx == 0 then [] else Walk(a, nx - 1, ny, nz) + Layer(a, nx - 1, ny, nz)
  }

  lemma {:induction false} RowIndex(a: Grid, x: int, y: int, nz: nat, z: nat)
    requires z < nz
    ensures Row(a, x, y, nz)[z] == CellAt(a, x, y, z)
  {
    if z < nz - 1 {
      RowIndex(a, x, y, nz - 1, z);
    }
  }

  lemma {:induction false} LayerIndex(a: Grid, x: int, ny: nat, nz: nat, y: nat, z: nat)
    requires y < ny && z < nz
    ensures y * nz + z < ny * nz
    ensures Layer(a, x, ny, nz)[y * nz + z] == CellAt(a, x, y, z)
  {
    if y < ny - 1 {
      LayerIndex(a, x, ny - 1, nz, y, z);
      assert (ny - 1) * nz == ny * nz - nz;
    } else {
      assert y * nz == (ny - 1) * nz;
      RowIndex(a, x, y, nz, z);
    }
  }

  /** An entry inside block `x` of `n` blocks of `m` entries lies before the end. */
  lemma {:induction false} BlockBound(x: nat, n: nat, m: nat, k: nat)
    requires x < n && k < m
    ensures x * m + k < n * m
  {
    assert n * m == (n - 1) * m + m;
    if x < n - 1 {
      BlockBound(x, n - 1, m, k);
    }
  }

  /** Entry k of layer x is entry x * (ny * nz) + k of the walk. */
  lemma {:induction false} WalkLayerIndex(a: Grid, nx: nat, ny: nat, nz: nat, x: nat, k: nat)
    requires x < nx && k < ny * nz
    ensures x * (ny * nz) + k < nx * (ny * nz)
    ensures Walk(a, nx, ny, nz)[x * (ny * nz) + k] == Layer(a, x, ny, nz)[k]
  {
    var m := ny * nz;
    BlockBound(x, nx, m, k);
    if x < nx - 1 {
      WalkLayerIndex(a, nx - 1, ny, nz, x, k);
      BlockBound(x, nx - 1, m, k);
    } else {
      assert (nx - 1) * m == |Walk(a, nx - 1, ny, nz)|;
    }
  }

  /** Cell (x, y, z) is entry (x * ny + y) * nz + z of the walk. */
  lemma WalkIndex(a: Grid, nx: nat, ny: nat, nz: nat, x: nat, y: nat, z: nat)
    requires x < nx && y < ny && z < nz
    ensures (x * ny + y) * nz + z < nx * (ny * nz)
    ensures Walk(a, nx, ny, nz)[(x * ny + y) * nz + z] == CellAt(a, x, y, z)
  {
    LayerIndex(a, x, ny, nz, y, z);
    WalkLayerIndex(a, nx, ny, nz, x, y * nz + z);
    IndexSplit(x, y, z, ny, nz);
  }

  lemma IndexSplit(x: int, y: int, z: int, ny: int, nz: int)
    ensures (x * ny + y) * nz + z == x * (ny * nz) + (y * nz + z)
  {
    assert (x * ny + y) * nz == (x * ny) * nz + y * nz;
    assert (x * ny) * nz == x * (ny * nz);
  }

  /** In the encoded walk over the whole grid, cell (x, y, z) is entry
      (x * ny + y) * nz + z. */
  lemma EncodedCell<Tag>(a: Grid, encode: Schematic? -> Tag, x: nat, y: nat, z: nat)
    requires x < a.Length0 && y < a.Length1 && z < a.Length2
    ensures var blocks, i := Map(encode, Walk(a, a.Length0, a.Length1, a.Length2)), (x * a.Length1 + y) * a.Length2 + z;
      i < |blocks| && blocks[i] == encode(a[x, y, z])
  {
    WalkIndex(a, a.Length0, a.Length1, a.Length2, x, y, z);
  }

  /** Whether walking the box from the origin to `last` reads past the grid. */
  predicate Overruns(a: Grid, last: Vec3) {
    last.x >= 0 && last.y >= 0 && last.z >= 0 &&
    (last.x >= a.Length0 || last.y >= a.Length1 || last.z >= a.Length2)
  }

  /** Encodes every cell from the origin to `last`, x outermost and z
      innermost; reading a cell outside the grid raises ArrayIndexOutOfBounds. */
  method EncodeBox<Tag>(a: Grid, last: Vec3, encode: Schematic? -> Tag) returns (r: Result<seq<Tag>>)
    ensures r.Failure? <==> Overruns(a, last)
    ensures r.Failure? ==> r.error == ArrayIndexOutOfBounds
    ensures r.Success? ==> r.value == Map(encode, Walk(a, Count(last.x), Count(last.y), Count(last.z)))
  {
    var list: seq<Tag> := [];
    var ny, nz := Count(last.y), Count(last.z);
    var x := 0;
    while x <= last.x
      invariant 0 <= x <= Count(last.x)
      invariant list == Map(encode, Walk(a, x, ny, nz))
      invariant x > 0 && ny > 0 && nz > 0 ==> x - 1 < a.Length0 && ny <= a.Length1 && nz <= a.Length2
    {
      var layer := EncodeLayer(a, x, last, encode, list);
      if layer.Failure? {
        return layer;
      }
      MapAppend(encode, Walk(a, x, ny, nz), Layer(a, x, ny, nz));
      list := layer.value;
      x := x + 1;
    }
    return Success(list);
  }

  /** Appends the encoded cells of layer x, from y = 0 to `last.y` and
      z = 0 to `last.z`, to `list`. */
  method EncodeLayer<Tag>(a: Grid, x: nat, last: Vec3, encode: Schematic? -> Tag, list: seq<Tag>) returns (r: Result<seq<Tag>>)
    ensures r.Failure? <==> last.y >= 0 && last.z >= 0 && (x >= a.Length0 || last.y >= a.Length1 || last.z >= a.Length2)
    ensures r.Failure? ==> r.error == ArrayIndexOutOfBounds
    ensures r.Success? ==> r.value == list + Map(encode, Layer(a, x, Count(last.y), Count(last.z)))
  {
    var nz := Count(last.z);
    var sofar := list;
    var y := 0;
    while y <= last.y
      invariant 0 <= y <= Count(last.y)
      invariant sofar == list + Map(encode, Layer(a, x, y, nz))
      invariant y > 0 && nz > 0 ==> x < a.Length0 && y - 1 < a.Length1 && nz <= a.Length2
    {
      var row := EncodeRow(a, x, y, last.z, encode, sofar);
      if row.Failure? {
        return row;
      }
      MapAppend(encode, Layer(a, x, y, nz), Row(a, x, y, nz));
      sofar := row.value;
      y := y + 1;
    }
    return Success(sofar);
  }

  /** Appends the encoded cells of row (x, y), from z = 0 to `lastZ`, to `list`. */
  method EncodeRow<Tag>(a: Grid, x: nat, y: nat, lastZ: int, encode: Schematic? -> Tag, list: seq<Tag>) returns (r: Result<seq<Tag>>)
    ensures r.Failure? <==> lastZ >= 0 && (x >= a.Length0 || y >= a.Length1 || lastZ >= a.Length2)
    ensures r.Failure? ==> r.error == ArrayIndexOutOfBounds
    ensures r.Success? ==> r.value == list + Map(encode, Row(a, x, y, Count(lastZ)))
  {
    var sofar := list;
    var z := 0;
    while z <= lastZ
      invariant 0 <= z <= Count(lastZ)
      invariant sofar == list + Map(encode, Row(a, x, y, z))
      invariant z > 0 ==> x < a.Length0 && y < a.Length1 && z - 1 < a.Length2
    {
      if x >= a.Length0 || y >= a.Length1 || z >= a.Length2 {
        return Failure(ArrayIndexOutOfBounds);
      }
      var block := a[x, y, z];
      MapAppend(encode, Row(a, x, y, z), [block]);
      sofar := sofar + [encode(block)];
      z := z + 1;
    }
    return Success(sofar);
  }

  // ---------------------------------------------------------------------------
  // The blueprint

  class Blueprint {
    /** The box the blueprint covers, kept by the base class. */
    var min: Vec3
    var max: Vec3
    /** Cell (x, y, z) holds the block at min + (x, y, z); null when empty. */
    var contentBlocks: array3?<Schematic?>
    var contentEntities: seq<Schematic>

    ghost predicate Valid()
      reads this, contentBlocks
    {
      contentBlocks != null &&
      contentBlocks.Length0 == max.x - min.x + 1 &&
      contentBlocks.Length1 == max.y - min.y + 1 &&
      contentBlocks.Length2 == max.z - min.z + 1 &&
      Distinct(contentBlocks) &&
      (forall i, j :: 0 <= i < j < |contentEntities| ==> contentEntities[i] != contentEntities[j]) &&
      (forall i :: 0 <= i < |contentEntities| ==> contentEntities[i] !in CellSet(contentBlocks))
    }

    ghost function Entities(): set<Schematic>
      reads this
    {
      set e | e in contentEntities
    }

    /** A new, empty blueprint covering the box from `min` to `max`. */
    constructor (min: Vec3, max: Vec3)
      requires max.x - min.x + 1 >= 0 && max.y - min.y + 1 >= 0 && max.z - min.z + 1 >= 0
      ensures Valid() && this.min == min && this.max == max
      ensures fresh(contentBlocks) && CellSet(contentBlocks) == {} && contentEntities == []
    {
      this.min := min;
      this.max := max;
      var size := max.Minus(min).Plus(One);
      contentBlocks := new Schematic?[size.x, size.y, size.z]((_, _, _) => null);
      contentEntities := [];
    }

    /** A blueprint read back from its NBT form. The base class reads the box;
        the contents are left unset, since deserializeNBT reads nothing. */
    constructor FromNbt<Tag>(nbt: Tag, min: Vec3, max: Vec3)
      ensures this.min == min && this.max == max && contentBlocks == null && contentEntities == []
    {
      this.min := min;
      this.max := max;
      contentBlocks := null;
      contentEntities := [];
      new;
      DeserializeNBT(nbt);
    }

    /** Restores nothing. */
    method DeserializeNBT<Tag>(nbt: Tag)
      ensures unchanged(this)
    {
    }

    /** Always raises AbstractMethodError. */
    method MirrorContents(mirror: Mirror) returns (r: Result<()>)
      ensures r == Failure(AbstractMethodError)
    {
      return Failure(AbstractMethodError);
    }

    /** The rotated box has a non-negative size and every cell lands inside it.
        This is assumed of the rotation function: nothing in the blueprint
        checks it. */
    ghost predicate FitsRotation(rotation: Rotation, rotate: (Vec3, Rotation) -> Vec3)
      reads this, contentBlocks
      requires Valid()
    {
      var oldMax := max.Minus(min);
      var newMax := rotate(oldMax, rotation);
      newMax.x + 1 >= 0 && newMax.y + 1 >= 0 && newMax.z + 1 >= 0 &&
      forall p :: In(contentBlocks, p) ==>
        var l := Landing(p, rotation, rotate, oldMax);
        0 <= l.x <= newMax.x && 0 <= l.y <= newMax.y && 0 <= l.z <= newMax.z
    }

    /** Rotates every cell's schematic and builds the grid of the rotated
        blueprint, sending cell `p` to `Landing(p)`. */
    method RotateCells(rotation: Rotation, rotate: (Vec3, Rotation) -> Vec3) returns (newBlocks: Grid)
      requires Valid() && Full(contentBlocks) && FitsRotation(rotation, rotate)
      modifies CellSet(contentBlocks)
      ensures fresh(newBlocks)
      ensures newBlocks.Length0 == rotate(max.Minus(min), rotation).x + 1
      ensures newBlocks.Length1 == rotate(max.Minus(min), rotation).y + 1
      ensures newBlocks.Length2 == rotate(max.Minus(min), rotation).z + 1
      ensures forall p :: In(contentBlocks, p) ==>
        At(contentBlocks, p).applied == old(At(contentBlocks, p).applied) + [Rotated(rotation)]
      ensures LandsApart(contentBlocks, rotation, rotate, max.Minus(min)) ==>
        forall p :: In(contentBlocks, p) ==>
          In(newBlocks, Landing(p, rotation, rotate, max.Minus(min))) &&
          At(newBlocks, Landing(p, rotation, rotate, max.Minus(min))) == At(contentBlocks, p)
    {
      var a := contentBlocks;
      var oldMax := max.Minus(min);
      var newMax := rotate(oldMax, rotation);
      var size := newMax.Plus(One);
      newBlocks := new Schematic?[size.x, size.y, size.z]((_, _, _) => null);
      assert Lands(a, newBlocks, rotation, rotate, oldMax);
      RotateGrid(a, newBlocks, rotation, rotate, oldMax);
    }

    /** Rotates every schematic in place. The rotated grid is built and then
        dropped, so every block keeps its cell. */
    method RotateContentsBy(rotation: Rotation, rotate: (Vec3, Rotation) -> Vec3)
      requires Valid() && Full(contentBlocks) && FitsRotation(rotation, rotate)
      modifies CellSet(contentBlocks), Entities()
      ensures Valid() && contentBlocks == old(contentBlocks) && unchanged(contentBlocks)
      ensures forall p :: In(contentBlocks, p) ==>
        At(contentBlocks, p).applied == old(At(contentBlocks, p).applied) + [Rotated(rotation)]
      ensures forall i :: 0 <= i < |contentEntities| ==>
        contentEntities[i].applied == old(contentEntities[i].applied) + [Rotated(rotation)]
    {
      var newContentBlocks := RotateCells(rotation, rotate);
      var a := contentBlocks;
      for i := 0 to |contentEntities|
        invariant forall p :: In(a, p) ==>
          At(a, p).applied == old(At(a, p).applied) + [Rotated(rotation)]
        invariant forall j :: 0 <= j < |contentEntities| ==>
          contentEntities[j].applied == old(contentEntities[j].applied) + (if j < i then [Rotated(rotation)] else [])
      {
        contentEntities[i].Rotate(rotation);
      }
    }

    /** Translates every schematic in place by `delta`; empty cells are skipped
        and no block changes cell. */
    method TranslateContentsBy(delta: Vec3)
      requires Valid()
      modifies CellSet(contentBlocks), Entities()
      ensures Valid() && contentBlocks == old(contentBlocks) && unchanged(contentBlocks)
      ensures forall p :: In(contentBlocks, p) && At(contentBlocks, p) != null ==>
        At(contentBlocks, p).applied == old(At(contentBlocks, p).applied) + [Moved(delta)]
      ensures forall i :: 0 <= i < |contentEntities| ==>
        contentEntities[i].applied == old(contentEntities[i].applied) + [Moved(delta)]
    {
      var a := contentBlocks;
      TranslateGrid(a, delta);
      for i := 0 to |contentEntities|
        invariant forall p :: In(a, p) && At(a, p) != null ==>
          At(a, p).applied == old(At(a, p).applied) + [Moved(delta)]
        invariant forall j :: 0 <= j < |contentEntities| ==>
          contentEntities[j].applied == old(contentEntities[j].applied) + (if j < i then [Moved(delta)] else [])
      {
        contentEntities[i].Translate(delta);
      }
    }

    /** The tasks of every schematic, keyed by the schematic's identity. */
    method CreateTasks<B, T>(builder: B, tasksOf: (Schematic, B) -> T) returns (tasks: map<Schematic, T>)
      requires Valid()
      ensures tasks.Keys == CellSet(contentBlocks) + Entities()
      ensures forall s :: s in tasks ==> tasks[s] == tasksOf(s, builder)
    {
      tasks := CellTasks(contentBlocks, builder, tasksOf);
      for i := 0 to |contentEntities|
        invariant tasks.Keys == CellSet(contentBlocks) + set j | 0 <= j < i :: contentEntities[j]
        invariant forall s :: s in tasks ==> tasks[s] == tasksOf(s, builder)
      {
        var schematic := contentEntities[i];
        tasks := tasks[schematic := tasksOf(schematic, builder)];
      }
      assert (set j | 0 <= j < |contentEntities| :: contentEntities[j]) == Entities();
    }

    /** The block list of serializeNBT: every cell from the origin to `max`,
        x outermost and z innermost, or ArrayIndexOutOfBounds when that box
        reaches past the grid. */
    method SerializeNBT<Tag>(encode: Schematic? -> Tag) returns (r: Result<seq<Tag>>)
      requires Valid()
      ensures r.Failure? <==> Overruns(contentBlocks, max)
      ensures r.Failure? ==> r.error == ArrayIndexOutOfBounds
      ensures r.Success? ==> r.value == Map(encode, Walk(contentBlocks, Count(max.x), Count(max.y), Count(max.z)))
      ensures min == Vec3(0, 0, 0) ==> r.Success?
    {
      r := EncodeBox(contentBlocks, max, encode);
    }

    /** The walk of serializeNBT runs from the origin to `max` instead of to
        `max - min`: for a non-empty box in the non-negative octant it reaches
        past the grid exactly when the box does not start at the origin. */
    lemma SerializeNBTOverruns()
      requires Valid() && min.x >= 0 && min.y >= 0 && min.z >= 0
      requires max.x >= min.x && max.y >= min.y && max.z >= min.z
      ensures Overruns(contentBlocks, max) <==> min != Vec3(0, 0, 0)
    {
      if min != Vec3(0, 0, 0) {
        assert min.x > 0 || min.y > 0 || min.z > 0;
      }
    }

    /** The block list walking the grid's own box, from the origin to
        `max - min`: it never reads past the grid, and by `EncodedCell` it
        holds one entry per cell, cell (x, y, z) at index (x * ny + y) * nz + z. */
    method SerializeContents<Tag>(encode: Schematic? -> Tag) returns (blocks: seq<Tag>)
      requires Valid()
      ensures blocks == Map(encode, Walk(contentBlocks, contentBlocks.Length0, contentBlocks.Length1, contentBlocks.Length2))
      ensures |blocks| == contentBlocks.Length0 * (contentBlocks.Length1 * contentBlocks.Length2)
    {
      var r := EncodeBox(contentBlocks, max.Minus(min), encode);
      blocks := r.value;
    }
  }
}
