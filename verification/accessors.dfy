/** The two accessors the generator appends to its output
    (test/pack.c:27-41), over the compiled `packed_files[]` table. */
module Accessors {
  import opened Types

  /** `SIZE_MAX` of a 64-bit `size_t`. */
  const SizeMax: nat := 0xFFFF_FFFF_FFFF_FFFF

  /** One compiled row of `packed_files[]`: the name, the byte table it
      points at, that table's `sizeof`, the mtime and the zipped flag; or
      the sentinel, whose name is NULL. */
  datatype PackedFile = File(name: string, data: Bytes, size: nat, mtime: int, zipped: bool) | Sentinel

  /** A `size_t *` or `time_t *` out-parameter: NULL, or a pointer to a
      variable holding `value`. */
  datatype Slot<T> = Null | Ptr(value: T)

  /** What `mg_unpack` leaves behind: its return value and the two
      out-variables. */
  datatype Unpacked = Unpacked(data: Option<Bytes>, size: Slot<nat>, mtime: Slot<int>)

  /** `p->size - 1` in `size_t` arithmetic. */
  function SizeMinusOne(size: nat): (r: nat)
    ensures size > 0 ==> r + 1 == size
    ensures size == 0 ==> r == SizeMax
  {
    if size == 0 then SizeMax else size - 1
  }

  /** `*slot = v` when the pointer is not NULL. */
  function Store<T>(slot: Slot<T>, v: T): (r: Slot<T>)
    ensures r.Null? <==> slot.Null?
    ensures r.Ptr? ==> r.value == v
  {
    if slot.Ptr? then Ptr(v) else Null
  }

  /** `strcmp(p->name, name) == 0`; a Dafny string stands for a NUL-free C
      string (see Left out in the README), so `strcmp` is plain equality. */
  predicate Named(p: PackedFile, name: string) {
    p.File? && p.name == name
  }

  /** `mg_unlist(no)`: the name of row `no`, NULL for the sentinel. */
  function Unlist(dir: seq<PackedFile>, no: nat): (r: Option<string>)
    requires no < |dir|
    ensures r.None? <==> dir[no].Sentinel?
    ensures r.Some? ==> Named(dir[no], r.value)
  {
    if dir[no].Sentinel? then None else Some(dir[no].name)
  }

  predicate HasSentinel(dir: seq<PackedFile>, i: nat) {
    exists k :: i <= k < |dir| && dir[k].Sentinel?
  }

  /** Where the scan of `mg_unpack` that starts at row `i` stops. */
  function FirstSentinel(dir: seq<PackedFile>, i: nat): (f: nat)
    requires HasSentinel(dir, i)
    ensures i <= f < |dir| && dir[f].Sentinel?
    ensures forall j :: i <= j < f ==> dir[j].File?
    decreases |dir| - i
  {
    if dir[i].Sentinel? then i else FirstSentinel(dir, i + 1)
  }

  /** The search loop of `mg_unpack` from row `i`: the first row before the
      sentinel with the queried name wins; on a hit the out-variables that
      are present receive `size - 1` and the mtime, on a miss nothing is
      written and NULL is returned. */
  function UnpackFrom(dir: seq<PackedFile>, i: nat, name: string, size: Slot<nat>, mtime: Slot<int>): (r: Unpacked)
    requires HasSentinel(dir, i)
    ensures r.data.None? <==> forall k :: i <= k < FirstSentinel(dir, i) ==> !Named(dir[k], name)
    ensures r.data.None? ==> r.size == size && r.mtime == mtime
    ensures r.data.Some? ==>
              exists k :: i <= k < FirstSentinel(dir, i) && Named(dir[k], name)
                && (forall j :: i <= j < k ==> !Named(dir[j], name))
                && r == Unpacked(Some(dir[k].data), Store(size, SizeMinusOne(dir[k].size)), Store(mtime, dir[k].mtime))
    decreases |dir| - i
  {
    if dir[i].Sentinel? then Unpacked(None, size, mtime)
    else if dir[i].name == name then
      Unpacked(Some(dir[i].data), Store(size, SizeMinusOne(dir[i].size)), Store(mtime, dir[i].mtime))
    else UnpackFrom(dir, i + 1, name, size, mtime)
  }

  /** `mg_unpack(name, size, mtime)`. */
  function Unpack(dir: seq<PackedFile>, name: string, size: Slot<nat>, mtime: Slot<int>): (r: Unpacked)
    requires HasSentinel(dir, 0)
  {
    UnpackFrom(dir, 0, name, size, mtime)
  }

  /** A lookup that hits row `k` when `k` is the first row named `name`
      before the sentinel. */
  lemma UnpackHit(dir: seq<PackedFile>, k: nat, name: string, size: Slot<nat>, mtime: Slot<int>)
    requires HasSentinel(dir, 0)
    requires k < FirstSentinel(dir, 0) && Named(dir[k], name)
    requires forall j :: 0 <= j < k ==> !Named(dir[j], name)
    ensures Unpack(dir, name, size, mtime)
         == Unpacked(Some(dir[k].data), Store(size, SizeMinusOne(dir[k].size)), Store(mtime, dir[k].mtime))
  {
  }
}
