/** Shelf slots of the warehouse floor (Storage.h): a shelf location, the
    partition of all slots into free and occupied, and the derivation of the
    slots from the character floor grid. */
module Storage {

  /** Floor-grid characters. */
  const WallChar: char := 'X'
  const EmptyChar: char := ' '
  const LeftStorageChar: char := 'L'
  const RightStorageChar: char := 'R'
  const Bay1Char: char := '1'
  const Bay2Char: char := '2'

  /** Shelf units stacked at every storage cell. */
  const NumShelves: nat := 6

  /** One storage slot; -1 in a coordinate marks "no slot". */
  datatype ShelfLocation = ShelfLocation(row: int, col: int, shelf: int)

  /** The default-constructed location. */
  function InvalidLocation(): (l: ShelfLocation)
    ensures !IsValid(l)
  {
    ShelfLocation(-1, -1, -1)
  }

  predicate IsValid(l: ShelfLocation)
  {
    l.row != -1 && l.col != -1 && l.shelf != -1
  }

  /** `operator==` compares the three coordinates. */
  predicate SameLocation(a: ShelfLocation, b: ShelfLocation)
  {
    a.row == b.row && a.col == b.col && a.shelf == b.shelf
  }

  /** Field-wise comparison is exactly value equality of locations. */
  lemma SameLocationIsEquality(a: ShelfLocation, b: ShelfLocation)
    ensures SameLocation(a, b) <==> a == b
  {
  }

  datatype Storage = Storage(free: seq<ShelfLocation>, occupied: seq<ShelfLocation>)

  /** All slots, whichever side of the partition they are on. */
  function AllSlots(s: Storage): multiset<ShelfLocation>
  {
    multiset(s.free) + multiset(s.occupied)
  }

  /** `GetFreeShelf`: the source picks `rand() % |free|`; the random number is
      the parameter `rnd`. With no free slot it returns the invalid location
      and changes nothing. */
  function GetFreeShelf(s: Storage, rnd: nat): (r: (ShelfLocation, Storage))
    ensures |s.free| == 0 ==> r.0 == InvalidLocation() && r.1 == s
    ensures |s.free| > 0 ==>
      var i := rnd % |s.free|;
      && r.0 == s.free[i]
      && r.1.free == s.free[..i] + s.free[i + 1..]
      && r.1.occupied == s.occupied + [r.0]
    ensures |r.1.free| + |r.1.occupied| == |s.free| + |s.occupied|
    ensures AllSlots(r.1) == AllSlots(s)
  {
    if |s.free| == 0 then
      (InvalidLocation(), s)
    else
      var i := rnd % |s.free|;
      var loc := s.free[i];
      assert s.free == s.free[..i] + [loc] + s.free[i + 1..];
      (loc, Storage(s.free[..i] + s.free[i + 1..], s.occupied + [loc]))
  }

  /** Index of the first element of `xs` equal to `l`, if any. */
  function FindFirst(xs: seq<ShelfLocation>, l: ShelfLocation): (r: int)
    ensures -1 <= r < |xs|
    ensures r == -1 <==> l !in xs
    ensures r >= 0 ==> xs[r] == l && l !in xs[..r]
  {
    if |xs| == 0 then -1
    else if xs[0] == l then 0
    else
      var k := FindFirst(xs[1..], l);
      assert xs[1..][..if k < 0 then 0 else k] == xs[1..if k < 0 then 1 else k + 1];
      if k == -1 then -1 else k + 1
  }

  /** `FreeShelf`: an invalid location is refused; otherwise the first equal
      occupied slot moves to the end of the free list. */
  function FreeShelf(s: Storage, l: ShelfLocation): (r: (bool, Storage))
    ensures !IsValid(l) ==> !r.0 && r.1 == s
    ensures IsValid(l) && l !in s.occupied ==> !r.0 && r.1 == s
    ensures r.0 <==> IsValid(l) && l in s.occupied
    ensures r.0 ==>
      exists i :: 0 <= i < |s.occupied| && s.occupied[i] == l && l !in s.occupied[..i]
        && r.1.occupied == s.occupied[..i] + s.occupied[i + 1..]
        && r.1.free == s.free + [l]
    ensures AllSlots(r.1) == AllSlots(s)
  {
    if !IsValid(l) then
      (false, s)
    else
      var i := FindFirst(s.occupied, l);
      if i < 0 then (false, s)
      else
        assert s.occupied == s.occupied[..i] + [l] + s.occupied[i + 1..];
        (true, Storage(s.free + [l], s.occupied[..i] + s.occupied[i + 1..]))
  }

  /** Taking a slot and freeing it again restores the slot counts of both
      sides (the slot goes to the end of the free list). */
  lemma GetThenFreeRestoresCounts(s: Storage, rnd: nat)
    requires |s.free| > 0 && IsValid(s.free[rnd % |s.free|])
    ensures var (l, s1) := GetFreeShelf(s, rnd);
      var (ok, s2) := FreeShelf(s1, l);
      ok && |s2.free| == |s.free| && |s2.occupied| == |s.occupied|
      && multiset(s2.free) == multiset(s.free)
  {
    var (l, s1) := GetFreeShelf(s, rnd);
    assert l == s1.occupied[|s1.occupied| - 1];
    var i := rnd % |s.free|;
    assert s.free == s.free[..i] + [l] + s.free[i + 1..];
  }

  /** `PopulateShelfs`: the six shelf units of one storage cell. */
  function CellShelves(row: int, col: int): (r: seq<ShelfLocation>)
    ensures |r| == NumShelves
    ensures forall k :: 0 <= k < |r| ==> r[k] == ShelfLocation(row, col, k)
  {
    seq(NumShelves, k => ShelfLocation(row, col, k))
  }

  /** `PopulateShelfs(loc)` appends `NumShelves` copies of `loc` whose shelf
      index runs 0 .. 5, leaving the existing free list untouched. */
  lemma PopulateAppendsSixShelves(free: seq<ShelfLocation>, row: int, col: int)
    ensures var r := free + CellShelves(row, col);
      && |r| == |free| + 6
      && r[..|free|] == free
      && forall k :: 0 <= k < 6 ==> r[|free| + k] == ShelfLocation(row, col, k)
  {
  }

  /** The slots contributed by one floor character at (row, col). Left-side
      storage sits one column to the left, right-side storage one column to
      the right, loading bays at the cell itself; every other character
      (walls, corridors, ...) contributes nothing. */
  function CharShelves(c: char, row: int, col: int): seq<ShelfLocation>
  {
    if c == LeftStorageChar then CellShelves(row, col - 1)
    else if c == RightStorageChar then CellShelves(row, col + 1)
    else if c == Bay1Char || c == Bay2Char then CellShelves(row, col)
    else []
  }

  predicate IsStorageChar(c: char)
  {
    c == LeftStorageChar || c == RightStorageChar || c == Bay1Char || c == Bay2Char
  }

  /** A rectangular floor grid: `rows` lines of `cols` characters. */
  predicate Rectangular(floor: seq<seq<char>>, cols: nat)
  {
    forall r :: 0 <= r < |floor| ==> |floor[r]| == cols
  }

  /** Reference definition: slots of the first `n` cells of one row. */
  function RowShelves(line: seq<char>, row: int, n: nat): seq<ShelfLocation>
    requires n <= |line|
  {
    if n == 0 then [] else RowShelves(line, row, n - 1) + CharShelves(line[n - 1], row, n - 1)
  }

  /** Reference definition: row-major slots of the first `n` rows. */
  function FloorShelves(floor: seq<seq<char>>, cols: nat, n: nat): seq<ShelfLocation>
    requires n <= |floor| && Rectangular(floor, cols)
  {
    if n == 0 then [] else FloorShelves(floor, cols, n - 1) + RowShelves(floor[n - 1], n - 1, cols)
  }

  /** Number of storage characters in the first `n` cells of a row. */
  function CountStorage(line: seq<char>, n: nat): nat
    requires n <= |line|
  {
    if n == 0 then 0 else CountStorage(line, n - 1) + (if IsStorageChar(line[n - 1]) then 1 else 0)
  }

  /** `InitializeShelfLocations` (scanning the loaded floor) followed by the
      `PopulateShelfs` calls: the row-major nested loop of the source. */
  method InitializeShelfLocations(floor: seq<seq<char>>, cols: nat) returns (free: seq<ShelfLocation>)
    requires Rectangular(floor, cols)
    ensures free == FloorShelves(floor, cols, |floor|)
  {
    free := [];
    var row := 0;
    while row < |floor|
      invariant 0 <= row <= |floor|
      invariant free == FloorShelves(floor, cols, row)
    {
      var col := 0;
      var line := floor[row];
      while col < cols
        invariant 0 <= col <= cols
        invariant free == FloorShelves(floor, cols, row) + RowShelves(line, row, col)
      {
        var c := line[col];
        var piece := [];
        if c == LeftStorageChar {
          piece := CellShelves(row, col - 1);
        } else if c == RightStorageChar {
          piece := CellShelves(row, col + 1);
        } else if c == Bay1Char {
          piece := CellShelves(row, col);
        } else if c == Bay2Char {
          piece := CellShelves(row, col);
        }
        assert piece == CharShelves(c, row, col);
        assert RowShelves(line, row, col + 1) == RowShelves(line, row, col) + piece;
        Append(FloorShelves(floor, cols, row), RowShelves(line, row, col), piece);
        free := free + piece;
        col := col + 1;
      }
      row := row + 1;
    }
  }

  lemma Append(a: seq<ShelfLocation>, b: seq<ShelfLocation>, c: seq<ShelfLocation>)
    ensures a + b + c == a + (b + c)
  {
  }

  /** Every storage character of a row yields exactly six slots, all in that
      row and with shelf indices 0 .. 5. */
  lemma {:induction false} RowShelvesShape(line: seq<char>, row: int, n: nat)
    requires n <= |line|
    ensures |RowShelves(line, row, n)| == NumShelves * CountStorage(line, n)
    ensures forall l :: l in RowShelves(line, row, n) ==> l.row == row && 0 <= l.shelf < NumShelves
  {
    if n > 0 {
      RowShelvesShape(line, row, n - 1);
      var c := line[n - 1];
      assert forall l :: l in CharShelves(c, row, n - 1) ==> l.row == row && 0 <= l.shelf < NumShelves;
    }
  }
}
