/** The register table of the slave: what an entry of m_RegisterArray holds,
    how findRegister picks an entry, and which caller-owned cells a request may
    read or write through the table. */
module Registers {

  import opened Wire

  /** ModbusRegister::RegisterType; `None` marks a slot that holds no register. */
  datatype RegisterType = None | Coil | DiscreteInput | InputRegister | HoldingRegister

  /** A caller-owned `bool` that a coil or discrete input is bound to. */
  class BitCell {
    var value: bool

    constructor (initial: bool)
      ensures value == initial
    {
      value := initial;
    }
  }

  /** A caller-owned `uint16_t` that an input or holding register is bound to. */
  class WordCell {
    var value: uint16

    constructor (initial: uint16)
      ensures value == initial
    {
      value := initial;
    }
  }

  /** m_pData: null, or a reference to the caller's cell. The engine never owns
      the cell; several entries may share one. */
  datatype Storage = Null | BitRef(bit: BitCell) | WordRef(word: WordCell)

  /** One slot of m_RegisterArray. */
  datatype Register = Register(kind: RegisterType, number: uint16, data: Storage)

  predicate IsBitKind(kind: RegisterType) { kind == Coil || kind == DiscreteInput }

  predicate IsWordKind(kind: RegisterType) { kind == InputRegister || kind == HoldingRegister }

  /** The add* wrappers only ever pair a bit kind with a `bool` cell and a word
      kind with a `uint16_t` cell (or with null). */
  predicate KindFits(r: Register) {
    match r.data
    case Null => true
    case BitRef(_) => !IsWordKind(r.kind)
    case WordRef(_) => !IsBitKind(r.kind)
  }

  predicate WellKinded(table: seq<Register>) {
    forall i :: 0 <= i < |table| ==> KindFits(table[i])
  }

  /** The test findRegister applies to each slot: right number, non-null data,
      type not None. Only such entries are ever found. */
  predicate Findable(r: Register, address: uint16) {
    r.number == address && r.data != Null && r.kind != None
  }

  /** No two findable entries share a register number. */
  predicate Unique(table: seq<Register>) {
    forall i, j :: 0 <= i < j < |table| && Findable(table[i], table[i].number) ==> !Findable(table[j], table[i].number)
  }

  /** The pointer findRegister returns: the index of an entry, or null. */
  datatype Lookup = Found(index: nat) | Missing

  /** findRegister over the first m_AssignedRegisters slots: the lowest index
      whose entry is findable under `address`, or Missing when there is none. */
  function Find(table: seq<Register>, address: uint16): (r: Lookup)
    ensures r.Found? ==> r.index < |table| && Findable(table[r.index], address)
  {
    if table == [] then Missing
    else
      match Find(table[..|table| - 1], address)
      case Found(i) => Found(i)
      case Missing => if Findable(table[|table| - 1], address) then Found(|table| - 1) else Missing
  }

  /** Find returns the lowest findable index, and Missing exactly when no
      entry is findable under `address`. */
  lemma {:induction false} FindIsFirst(table: seq<Register>, address: uint16)
    ensures Find(table, address).Found? ==> forall j :: 0 <= j < Find(table, address).index ==> !Findable(table[j], address)
    ensures Find(table, address).Missing? <==> forall j :: 0 <= j < |table| ==> !Findable(table[j], address)
  {
    if table != [] {
      var init := table[..|table| - 1];
      FindIsFirst(init, address);
      assert forall j :: 0 <= j < |init| ==> init[j] == table[j];
    }
  }

  /** Looking up in a table that grew by one slot: an earlier hit stays the hit;
      otherwise the new slot is found exactly when it is findable. */
  lemma FindAfterAppend(table: seq<Register>, r: Register, address: uint16)
    ensures Find(table + [r], address) ==
      if Find(table, address).Found? then Find(table, address)
      else if Findable(r, address) then Found(|table|)
      else Missing
  {
    assert (table + [r])[..|table|] == table;
  }

  /** In a table without duplicates, a findable entry is the one Find returns. */
  lemma FindIsOnly(table: seq<Register>, address: uint16, i: nat)
    requires Unique(table)
    requires i < |table| && Findable(table[i], address)
    ensures Find(table, address) == Found(i)
  {
    FindIsFirst(table, address);
  }

  /** Appending an entry whose number is not findable yet keeps the table
      free of duplicates. */
  lemma UniqueAfterAppend(table: seq<Register>, r: Register)
    requires Unique(table) && Find(table, r.number).Missing?
    ensures Unique(table + [r])
  {
    FindIsFirst(table, r.number);
    var t := table + [r];
    forall i, j | 0 <= i < j < |t| && Findable(t[i], t[i].number) ensures !Findable(t[j], t[i].number) {
      if j == |table| {
        assert t[i] == table[i];
      } else {
        assert t[i] == table[i] && t[j] == table[j];
      }
    }
  }

  /** The register at `address` exists and has the kind a handler asks for:
      the test `pRegister && pRegister->m_RegisterType == kind`. */
  predicate Resolves(table: seq<Register>, address: uint16, kind: RegisterType) {
    Find(table, address).Found? && table[Find(table, address).index].kind == kind
  }

  /** Address `i` of a range that starts at `start`: the i-th successor of
      `start` in uint16_t arithmetic, which wraps from 0xFFFF to 0. */
  function Address(start: uint16, i: nat): uint16
  {
    (start + i) % 0x1_0000
  }

  /** How many of the addresses start, start + 1, ..., start + n - 1 resolve to
      `kind` before the first one that does not: the number of iterations a
      handler's loop completes before it raises IllegalDataAddress. */
  function LeadingResolved(table: seq<Register>, start: uint16, n: nat, kind: RegisterType): (k: nat)
    requires n < 0x1_0000
    ensures k <= n
    ensures forall j {:trigger Resolves(table, Address(start, j), kind)} :: 0 <= j < k ==> Resolves(table, Address(start, j), kind)
    ensures k < n ==> !Resolves(table, Address(start, k), kind)
  {
    if n == 0 then 0
    else
      var k := LeadingResolved(table, start, n - 1, kind);
      if k < n - 1 then k
      else if Resolves(table, Address(start, n - 1), kind) then n
      else n - 1
  }

  /** The loop position at which a handler stops is LeadingResolved. */
  lemma LeadingResolvedAt(table: seq<Register>, start: uint16, n: nat, kind: RegisterType, i: nat)
    requires i <= n < 0x1_0000
    requires forall j {:trigger Resolves(table, Address(start, j), kind)} :: 0 <= j < i ==> Resolves(table, Address(start, j), kind)
    requires i < n ==> !Resolves(table, Address(start, i), kind)
    ensures LeadingResolved(table, start, n, kind) == i
  {
  }

  /** Within the range, address i resolves exactly when i comes before the
      first miss (given that no earlier address missed). */
  lemma ResolvedBefore(table: seq<Register>, start: uint16, n: nat, kind: RegisterType, i: nat)
    requires i < n < 0x1_0000 && i <= LeadingResolved(table, start, n, kind)
    ensures Resolves(table, Address(start, i), kind) <==> i < LeadingResolved(table, start, n, kind)
  {
  }

  /** Every `bool` cell the table refers to. */
  function BitCells(table: seq<Register>): set<BitCell> {
    set i | 0 <= i < |table| && table[i].data.BitRef? :: table[i].data.bit
  }

  /** Every `uint16_t` cell the table refers to. */
  function WordCells(table: seq<Register>): set<WordCell> {
    set i | 0 <= i < |table| && table[i].data.WordRef? :: table[i].data.word
  }

  /** The cell of the coil or discrete input that `address` resolves to. */
  function BitCellAt(table: seq<Register>, address: uint16, kind: RegisterType): (c: BitCell)
    requires WellKinded(table) && IsBitKind(kind) && Resolves(table, address, kind)
    ensures c in BitCells(table)
  {
    var i := Find(table, address).index;
    assert KindFits(table[i]);
    table[i].data.bit
  }

  /** The cell of the input or holding register that `address` resolves to. */
  function WordCellAt(table: seq<Register>, address: uint16, kind: RegisterType): (c: WordCell)
    requires WellKinded(table) && IsWordKind(kind) && Resolves(table, address, kind)
    ensures c in WordCells(table)
  {
    var i := Find(table, address).index;
    assert KindFits(table[i]);
    table[i].data.word
  }

  /** The value a cell holds after the writes of a request have been applied in
      order to cells that held `initial`: the last write to it, if any. */
  function Latest<C(==), V>(writes: seq<(C, V)>, cell: C, initial: V): V
  {
    if writes == [] then initial
    else if writes[|writes| - 1].0 == cell then writes[|writes| - 1].1
    else Latest(writes[..|writes| - 1], cell, initial)
  }

  /** One more write: the written cell now holds the written value, every
      other cell what it held before. */
  lemma LatestAppend<C, V>(writes: seq<(C, V)>, w: (C, V), cell: C, initial: V)
    ensures Latest(writes + [w], cell, initial) == if cell == w.0 then w.1 else Latest(writes, cell, initial)
  {
    assert (writes + [w])[..|writes|] == writes;
  }

  /** When a request writes pairwise distinct cells, each written cell ends up
      with the value written to it and every other cell keeps its value. */
  lemma {:induction false} LatestOfDistinct<C, V>(writes: seq<(C, V)>, cell: C, initial: V)
    requires forall i, j :: 0 <= i < j < |writes| ==> writes[i].0 != writes[j].0
    ensures forall i :: 0 <= i < |writes| && writes[i].0 == cell ==> Latest(writes, cell, initial) == writes[i].1
    ensures (forall i :: 0 <= i < |writes| ==> writes[i].0 != cell) ==> Latest(writes, cell, initial) == initial
  {
    if writes != [] {
      var prefix := writes[..|writes| - 1];
      LatestOfDistinct(prefix, cell, initial);
      assert forall i :: 0 <= i < |prefix| ==> prefix[i] == writes[i];
    }
  }

  /** The slot after begin's clearing: type None, data null, number kept. */
  function Cleared(r: Register): (c: Register)
    ensures KindFits(c) && forall a :: !Findable(c, a)
  {
    r.(kind := None, data := Null)
  }
}
