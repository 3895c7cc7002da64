// LoongArchMappingDump.c: the page-table walk against the translation it shows, a search of
// nested tables by the digits of the address.
module PageWalk {
  import opened Bytes
  import opened Sequences

  const PAGE_SHIFT: nat := 12

  // ---- Shifts and masks.

  function Pow2(n: nat): (p: nat)
    ensures p > 0
  {
    if n == 0 then 1 else 2 * Pow2(n - 1)
  }

  // x >> n
  function Shr(x: nat, n: nat): (r: nat)
    ensures r <= x
  {
    if n == 0 then x else Shr(x / 2, n - 1)
  }

  // x & ((1 << n) - 1)
  function Low(x: nat, n: nat): (r: nat)
    ensures r < Pow2(n)
  {
    if n == 0 then 0 else x % 2 + 2 * Low(x / 2, n - 1)
  }

  lemma Double(a: int, b: int)
    ensures a * (2 * b) == 2 * (a * b)
  {
  }

  lemma {:induction false} Pow2Adds(m: nat, n: nat)
    ensures Pow2(m + n) == Pow2(m) * Pow2(n)
  {
    if m > 0 {
      Pow2Adds(m - 1, n);
      Double(Pow2(n), Pow2(m - 1));
    }
  }

  lemma FrameNumbers()
    ensures Pow2(36) == 0x10_0000_0000
  {
    assert Pow2(9) == 0x200;
    Pow2Adds(9, 9);
    Pow2Adds(18, 18);
  }

  // What shifting and masking cut a number into.
  lemma {:induction false} Split(x: nat, n: nat)
    ensures x == Shr(x, n) * Pow2(n) + Low(x, n)
  {
    if n > 0 {
      Split(x / 2, n - 1);
      Double(Shr(x, n), Pow2(n - 1));
    }
  }

  function Field(x: nat, shift: nat, width: nat): nat {
    Low(Shr(x, shift), width)
  }

  predicate BitSet(x: nat, n: nat) {
    Field(x, n, 1) == 1
  }

  // ---- The registers.

  // The number of levels goes by the highest of these fields that is not zero.
  function ParseMaxPageTableLevel(pageWalkCfg: uint64): (levels: nat)
    ensures levels in {0, 3, 4, 5}
  {
    var pwctl0, pwctl1 := Low(pageWalkCfg, 32), Field(pageWalkCfg, 32, 32);
    if Field(pwctl1, 18, 6) != 0 then 5
    else if Field(pwctl1, 6, 6) != 0 then 4
    else if Field(pwctl0, 25, 6) != 0 then 3
    else 0
  }

  function ParsePageTableBitWidth(pageWalkCfg: uint64): nat {
    Field(pageWalkCfg, 5, 5)
  }

  predicate Supported(pageWalkCfg: uint64) {
    ParseMaxPageTableLevel(pageWalkCfg) != 0 && 0 < ParsePageTableBitWidth(pageWalkCfg) <= 12
  }

  // Entry & LA_PTE_PPN_MASK: bits 12 to 47.
  function Ppn(entry: uint64): (table: uint64)
    ensures table < 0x1_0000_0000_0000 && table % 0x1000 == 0
  {
    FrameNumbers();
    Field(entry, 12, 36) * 0x1000
  }

  // ---- Entries.

  datatype Kind = InvalidEntry | HugeLeaf | PageLeaf | TablePointer

  predicate MarkedHuge(entry: uint64) {
    BitSet(entry, 6) && BitSet(entry, 12)
  }

  // MaxLevel - 1 on unsigned numbers.
  function LastLevel(maxLevel: uint64): uint64 {
    if maxLevel == 0 then MAX_UINT64 else maxLevel - 1
  }

  predicate IsTableEntry(entry: uint64, level: uint64, maxLevel: uint64) {
    if entry == 0 then false
    else if level >= LastLevel(maxLevel) then false
    else if MarkedHuge(entry) then false
    else true
  }

  // The kind that is printed and the test that ends the walk agree.
  function GetEntryKind(entry: uint64, level: uint64, maxLevel: uint64): (kind: Kind)
    ensures kind.TablePointer? <==> IsTableEntry(entry, level, maxLevel)
  {
    if entry == 0 then InvalidEntry
    else if level < LastLevel(maxLevel) && MarkedHuge(entry) then HugeLeaf
    else if level >= LastLevel(maxLevel) then PageLeaf
    else TablePointer
  }

  // ---- The translation.

  // The last n digits of x, of this many bits each, the most significant first.
  function Digits(x: nat, n: nat, width: nat): (ds: seq<nat>)
    ensures |ds| == n
  {
    if n == 0 then [] else Digits(Shr(x, width), n - 1, width) + [Low(x, width)]
  }

  // The number these digits are read as.
  function Number(ds: seq<nat>, width: nat): nat {
    if ds == [] then 0 else Number(ds[..|ds| - 1], width) * Pow2(width) + ds[|ds| - 1]
  }

  // The bits that n digits take: n * width.
  function Span(n: nat, width: nat): nat {
    if n == 0 then 0 else width + Span(n - 1, width)
  }

  // One visited entry, as it is printed.
  datatype Visit = Visit(level: nat, table: uint64, index: nat, blockShift: nat, entry: uint64, kind: Kind)

  // What an entry is, with this many levels from its table down.
  function KindOf(entry: uint64, levels: nat): Kind {
    if entry == 0 then InvalidEntry
    else if levels == 1 then PageLeaf
    else if MarkedHuge(entry) then HugeLeaf
    else TablePointer
  }

  // The first digit selects an entry of the table.
  function FirstVisit(mem: nat -> uint64, table: uint64, digits: seq<nat>, level: nat, width: nat): Visit
    requires digits != []
  {
    var entry := mem(table + 8 * digits[0]);
    Visit(level, table, digits[0], PAGE_SHIFT + Span(|digits| - 1, width), entry, KindOf(entry, |digits|))
  }

  // A table pointer is followed with the rest of the digits.
  function Translate(mem: nat -> uint64, table: uint64, digits: seq<nat>, level: nat, width: nat): (visits: seq<Visit>)
    requires digits != []
    ensures 1 <= |visits| <= |digits|
    decreases |digits|
  {
    var v := FirstVisit(mem, table, digits, level, width);
    [v] + if v.kind.TablePointer? then Translate(mem, Ppn(v.entry), digits[1..], level + 1, width) else []
  }

  // The digits of an address that select entries.
  function Selectors(address: uint64, levels: nat, width: nat): (ds: seq<nat>)
    ensures |ds| == levels
  {
    Digits(Shr(address, PAGE_SHIFT), levels, width)
  }

  datatype Dump = Unsupported | Walked(high: bool, root: uint64, visits: seq<Visit>)

  function DumpOf(mem: nat -> uint64, pageWalkCfg: uint64, pgdl: uint64, pgdh: uint64, address: uint64): Dump {
    if !Supported(pageWalkCfg) then Unsupported
    else
      var levels, width := ParseMaxPageTableLevel(pageWalkCfg), ParsePageTableBitWidth(pageWalkCfg);
      var root := if BitSet(address, 47) then pgdh else pgdl;
      Walked(BitSet(address, 47), root, Translate(mem, Ppn(root), Selectors(address, levels, width), 0, width))
  }

  // ---- Shifts and digits.

  lemma {:induction false} ShiftTwice(x: nat, m: nat, n: nat)
    ensures Shr(Shr(x, m), n) == Shr(x, m + n)
  {
    if m > 0 {
      ShiftTwice(x / 2, m - 1, n);
    }
  }

  lemma {:induction false} LowSplits(x: nat, m: nat, n: nat)
    ensures Low(x, m + n) == Low(Shr(x, m), n) * Pow2(m) + Low(x, m)
  {
    if m > 0 {
      LowSplits(x / 2, m - 1, n);
      assert Low(x, m + n) == x % 2 + 2 * Low(x / 2, m - 1 + n);
      assert Low(x, m) == x % 2 + 2 * Low(x / 2, m - 1);
      Double(Low(Shr(x, m), n), Pow2(m - 1));
    }
  }

  lemma {:induction false} SpanIs(n: nat, width: nat)
    ensures Span(n, width) == n * width
  {
    if n > 0 {
      SpanIs(n - 1, width);
    }
  }

  // The first digits of a number are the digits of the number without its last ones.
  lemma {:induction false} FirstDigits(x: nat, k: nat, j: nat, width: nat)
    ensures Digits(x, k + j, width)[..k] == Digits(Shr(x, Span(j, width)), k, width)
    decreases j
  {
    if j == 0 {
      assert Shr(x, Span(j, width)) == x;
    } else {
      var ds := Digits(Shr(x, width), k + j - 1, width);
      assert (ds + [Low(x, width)])[..k] == ds[..k];
      FirstDigits(Shr(x, width), k, j - 1, width);
      ShiftTwice(x, width, Span(j - 1, width));
    }
  }

  // A digit is the field that the walk shifts out.
  lemma DigitAt(x: nat, n: nat, k: nat, width: nat)
    requires k < n
    ensures Digits(x, n, width)[k] == Field(x, Span(n - 1 - k, width), width)
  {
    FirstDigits(x, k + 1, n - 1 - k, width);
    assert Digits(x, n, width)[k] == Digits(x, n, width)[..k + 1][k];
  }

  lemma NumberUnfolds(ds: seq<nat>, d: nat, width: nat)
    ensures Number(ds + [d], width) == Number(ds, width) * Pow2(width) + d
  {
    assert (ds + [d])[..|ds|] == ds;
  }

  // The digits of a number and the number modulo 2^(n * width) say the same.
  lemma {:induction false} DigitsRecombine(x: nat, n: nat, width: nat)
    ensures Number(Digits(x, n, width), width) == Low(x, Span(n, width))
    decreases n
  {
    if n > 0 {
      var ds, high := Digits(Shr(x, width), n - 1, width), Span(n - 1, width);
      NumberUnfolds(ds, Low(x, width), width);
      DigitsRecombine(Shr(x, width), n - 1, width);
      LowSplits(x, width, high);
    }
  }

  lemma {:induction false} LowDecides(x: nat, y: nat, m: nat, n: nat)
    ensures Low(x, m + n) == Low(y, m + n) <==> Low(x, m) == Low(y, m) && Low(Shr(x, m), n) == Low(Shr(y, m), n)
  {
    if m > 0 {
      LowDecides(x / 2, y / 2, m - 1, n);
    }
  }

  lemma LastsDiffer(ds: seq<nat>, es: seq<nat>, d: nat, e: nat)
    requires |ds| == |es|
    ensures ds + [d] == es + [e] <==> ds == es && d == e
  {
    if ds + [d] == es + [e] {
      assert ds == (ds + [d])[..|ds|] && es == (es + [e])[..|es|];
      assert d == (ds + [d])[|ds|] && e == (es + [e])[|es|];
    }
  }

  lemma {:induction false} DigitsDecide(x: nat, y: nat, n: nat, width: nat)
    ensures Digits(x, n, width) == Digits(y, n, width) <==> Low(x, Span(n, width)) == Low(y, Span(n, width))
    decreases n
  {
    if n > 0 {
      DigitsDecide(Shr(x, width), Shr(y, width), n - 1, width);
      LowDecides(x, y, width, Span(n - 1, width));
      LastsDiffer(Digits(Shr(x, width), n - 1, width), Digits(Shr(y, width), n - 1, width),
                  Low(x, width), Low(y, width));
    }
  }

  // The field shifted out at a level is that digit of the address.
  lemma SelectorAt(address: uint64, levels: nat, width: nat, level: nat)
    requires level < levels
    ensures Selectors(address, levels, width)[level] ==
            Field(address, PAGE_SHIFT + Span(levels - 1 - level, width), width)
  {
    DigitAt(Shr(address, PAGE_SHIFT), levels, level, width);
    ShiftTwice(address, PAGE_SHIFT, Span(levels - 1 - level, width));
  }

  // The indices and the page offset are the whole address below the selected root, and
  // nothing of it is used twice.
  lemma AddressRecombines(address: uint64, levels: nat, width: nat)
    ensures Number(Selectors(address, levels, width), width) * 0x1000 + Low(address, PAGE_SHIFT)
            == Low(address, PAGE_SHIFT + levels * width)
  {
    SpanIs(levels, width);
    DigitsRecombine(Shr(address, PAGE_SHIFT), levels, width);
    LowSplits(address, PAGE_SHIFT, Span(levels, width));
    assert Pow2(PAGE_SHIFT) == 0x1000;
  }

  // ---- The program.

  // No shift leaves the 64-bit word.
  lemma ShiftFits(left: nat, width: nat)
    requires left <= 4 && width <= 12
    ensures PAGE_SHIFT + Span(left, width) == left * width + PAGE_SHIFT <= 60
  {
    SpanIs(left, width);
    assert left * width <= 4 * width by {
      assert (4 - left) * width >= 0;
    }
  }

  // What the loop body looks up and prints at one level.
  method VisitEntry(mem: nat -> uint64, table: uint64, address: uint64, level: nat, maxLevel: nat,
      width: nat) returns (v: Visit)
    requires level < maxLevel <= 5 && 0 < width <= 12
    ensures v == FirstVisit(mem, table, Selectors(address, maxLevel, width)[level..], level, width)
    ensures v.kind.TablePointer? <==> IsTableEntry(v.entry, level, maxLevel)
    ensures v.blockShift <= 60 && v.index < Pow2(width)
  {
    ShiftFits(maxLevel - level - 1, width);
    SelectorAt(address, maxLevel, width, level);
    ghost var digits := Selectors(address, maxLevel, width);
    assert digits[level..][0] == digits[level];
    var blockShift := (maxLevel - level - 1) * width + PAGE_SHIFT;
    var index := Field(address, blockShift, width);
    var entry := mem(table + 8 * index);
    v := Visit(level, table, index, blockShift, entry, GetEntryKind(entry, level, maxLevel));
  }

  // The walk has listed `visits` and stands at this level.
  ghost predicate WalkedTo(mem: nat -> uint64, digits: seq<nat>, width: nat, table: uint64, level: nat,
      visits: seq<Visit>, whole: seq<Visit>) {
    level < |digits| && visits + Translate(mem, table, digits[level..], level, width) == whole
  }

  // It has also listed this visit.
  ghost predicate Advanced(mem: nat -> uint64, digits: seq<nat>, width: nat, level: nat, v: Visit, visits: seq<Visit>,
      whole: seq<Visit>) {
    if v.kind.TablePointer? then WalkedTo(mem, digits, width, Ppn(v.entry), level + 1, visits, whole)
    else visits == whole
  }

  lemma WalkTurn(mem: nat -> uint64, digits: seq<nat>, width: nat, table: uint64, level: nat, visits: seq<Visit>,
      whole: seq<Visit>, v: Visit)
    requires WalkedTo(mem, digits, width, table, level, visits, whole)
    requires v == FirstVisit(mem, table, digits[level..], level, width)
    ensures Advanced(mem, digits, width, level, v, visits + [v], whole)
  {
    var rest := digits[level..];
    if v.kind.TablePointer? {
      assert rest[1..] == digits[level + 1..];
      Assoc(visits, [v], Translate(mem, Ppn(v.entry), rest[1..], level + 1, width));
    } else {
      assert Translate(mem, table, rest, level, width) == [v];
    }
  }

  lemma WalkStarts(mem: nat -> uint64, digits: seq<nat>, width: nat, table: uint64)
    requires digits != []
    ensures WalkedTo(mem, digits, width, table, 0, [], Translate(mem, table, digits, 0, width))
  {
    assert digits[0..] == digits;
  }

  // The loop over the levels.
  method WalkTables(mem: nat -> uint64, root: uint64, address: uint64, maxLevel: nat,
      width: nat) returns (visits: seq<Visit>)
    requires 0 < maxLevel <= 5 && 0 < width <= 12
    ensures visits == Translate(mem, Ppn(root), Selectors(address, maxLevel, width), 0, width)
  {
    ghost var digits := Selectors(address, maxLevel, width);
    ghost var whole := Translate(mem, Ppn(root), digits, 0, width);
    var table, level := Ppn(root), 0;
    visits := [];
    WalkStarts(mem, digits, width, table);
    while level < maxLevel
      invariant level < maxLevel
      invariant WalkedTo(mem, digits, width, table, level, visits, whole)
    {
      var v := VisitEntry(mem, table, address, level, maxLevel, width);
      WalkTurn(mem, digits, width, table, level, visits, whole, v);
      visits := visits + [v];
      if !IsTableEntry(v.entry, level, maxLevel) {
        return;
      }
      table := Ppn(v.entry);
      level := level + 1;
    }
  }

  method DumpPageWalk(mem: nat -> uint64, pageWalkCfg: uint64, pgdl: uint64, pgdh: uint64,
      address: uint64) returns (dump: Dump)
    ensures dump == DumpOf(mem, pageWalkCfg, pgdl, pgdh, address)
  {
    var maxLevel, width := ParseMaxPageTableLevel(pageWalkCfg), ParsePageTableBitWidth(pageWalkCfg);
    if maxLevel == 0 || width == 0 || width > 12 {
      return Unsupported;
    }
    var root := if BitSet(address, 47) then pgdh else pgdl;
    var visits := WalkTables(mem, root, address, maxLevel, width);
    dump := Walked(BitSet(address, 47), root, visits);
  }

  // ---- What a walk is.

  // A walk from a table goes through table pointers, each of which gives the next table,
  // and ends at an entry that is none.
  ghost predicate WellEnded(mem: nat -> uint64, table: uint64, visits: seq<Visit>)
    decreases |visits|
  {
    && visits != []
    && visits[0].table == table
    && visits[0].entry == mem(table + 8 * visits[0].index)
    && if visits[0].kind.TablePointer? then WellEnded(mem, Ppn(visits[0].entry), visits[1..]) else |visits| == 1
  }

  lemma {:induction false} WalkEnds(mem: nat -> uint64, table: uint64, digits: seq<nat>, level: nat, width: nat)
    requires digits != []
    ensures WellEnded(mem, table, Translate(mem, table, digits, level, width))
    decreases |digits|
  {
    var visits := Translate(mem, table, digits, level, width);
    if visits[0].kind.TablePointer? {
      WalkEnds(mem, Ppn(visits[0].entry), digits[1..], level + 1, width);
      assert visits[1..] == Translate(mem, Ppn(visits[0].entry), digits[1..], level + 1, width);
    }
  }

  // ---- The fields, as numbers.

  lemma Quotient(x: nat, q: nat, r: nat, size: nat)
    requires r < size && x == q * size + r
    ensures x / size == q && x % size == r
  {
    var p, s := x / size, x % size;
    assert p * size + s == q * size + r;
    assert (p + 1) * size == p * size + size && (q + 1) * size == q * size + size;
    if p < q {
      MoreTimes(p + 1, q, size);
    } else if q < p {
      MoreTimes(q + 1, p, size);
    }
  }

  lemma MoreTimes(m: nat, n: nat, size: nat)
    requires m <= n
    ensures m * size <= n * size
  {
    assert n * size == m * size + (n - m) * size;
  }

  // A field is what dividing and taking the remainder leave.
  lemma FieldIs(x: nat, shift: nat, width: nat)
    ensures Field(x, shift, width) == x / Pow2(shift) % Pow2(width)
  {
    Split(x, shift);
    Quotient(x, Shr(x, shift), Low(x, shift), Pow2(shift));
    Split(Shr(x, shift), width);
    Quotient(Shr(x, shift), Shr(Shr(x, shift), width), Low(Shr(x, shift), width), Pow2(width));
  }

  lemma Powers()
    ensures Pow2(0) == 1 && Pow2(1) == 2 && Pow2(5) == 0x20 && Pow2(6) == 0x40 && Pow2(12) == 0x1000
    ensures Pow2(18) == 0x4_0000 && Pow2(24) == 0x100_0000 && Pow2(25) == 0x200_0000
    ensures Pow2(32) == 0x1_0000_0000 && Pow2(36) == 0x10_0000_0000 && Pow2(47) == 0x8000_0000_0000
  {
    assert Pow2(5) == 0x20 && Pow2(6) == 0x40;
    Pow2Adds(6, 6);
    Pow2Adds(12, 6);
    Pow2Adds(18, 6);
    Pow2Adds(24, 1);
    Pow2Adds(25, 6);
    Pow2Adds(31, 1);
    Pow2Adds(18, 18);
    Pow2Adds(36, 6);
    Pow2Adds(42, 5);
  }

  lemma {:induction false} SmallLow(x: nat, n: nat)
    requires x < Pow2(n)
    ensures Low(x, n) == x
  {
    if n > 0 {
      SmallLow(x / 2, n - 1);
    }
  }

  lemma Halved(x: uint64)
    ensures x as int == 0x1_0000_0000 * (x / 0x1_0000_0000) + x % 0x1_0000_0000
    ensures x / 0x1_0000_0000 < 0x1_0000_0000
  {
  }

  // The two halves of the configuration, PWCTL0 and PWCTL1.
  lemma HalvesAre(cfg: uint64, size: nat)
    requires size == Pow2(32)
    ensures size == 0x1_0000_0000 && Low(cfg, 32) == cfg % size && Field(cfg, 32, 32) == cfg / size
  {
    Powers();
    Halved(cfg);
    Split(cfg, 32);
    Quotient(cfg, Shr(cfg, 32), Low(cfg, 32), size);
    SmallLow(Shr(cfg, 32), 32);
  }

  // The six bits at a position.
  lemma SixBits(x: nat, shift: nat, size: nat)
    requires size == Pow2(shift)
    ensures Field(x, shift, 6) == x / size % 0x40
  {
    Powers();
    FieldIs(x, shift, 6);
  }

  // The configuration as the hardware packs it: of PWCTL0 the width of an index in bits 5 to
  // 9 and the third directory in bits 25 to 30; of PWCTL1, above it, the fourth in bits 6 to
  // 11 and the fifth in bits 18 to 23.  The highest directory in use gives the levels.
  lemma LevelsAre(cfg: uint64)
    ensures ParsePageTableBitWidth(cfg) == cfg / 0x20 % 0x20
    ensures
      var pwctl0, pwctl1 := cfg % 0x1_0000_0000, cfg / 0x1_0000_0000;
      ParseMaxPageTableLevel(cfg) ==
      if pwctl1 / 0x4_0000 % 0x40 != 0 then 5
      else if pwctl1 / 0x40 % 0x40 != 0 then 4
      else if pwctl0 / 0x200_0000 % 0x40 != 0 then 3
      else 0
  {
    Powers();
    HalvesAre(cfg, 0x1_0000_0000);
    FieldIs(cfg, 5, 5);
    SixBits(Field(cfg, 32, 32), 18, 0x4_0000);
    SixBits(Field(cfg, 32, 32), 6, 0x40);
    SixBits(Low(cfg, 32), 25, 0x200_0000);
  }

  // An entry that is no leaf by position is a huge leaf exactly if bits 6 and 12 are both
  // set; the next table is at its bits 12 to 47.
  lemma EntryIs(entry: uint64, level: uint64, maxLevel: uint64)
    requires maxLevel > 0 && level < maxLevel - 1 && entry != 0
    ensures GetEntryKind(entry, level, maxLevel) ==
            if entry / 0x40 % 2 == 1 && entry / 0x1000 % 2 == 1 then HugeLeaf else TablePointer
    ensures Ppn(entry) == entry / 0x1000 % 0x10_0000_0000 * 0x1000
  {
    Powers();
    FieldIs(entry, 6, 1);
    FieldIs(entry, 12, 1);
    FieldIs(entry, 12, 36);
  }

  // The upper half of the address space, bit 47, has the root in PGDH, the lower in PGDL.
  lemma RootIs(mem: nat -> uint64, pageWalkCfg: uint64, pgdl: uint64, pgdh: uint64, address: uint64)
    requires Supported(pageWalkCfg)
    ensures
      var d, upper := DumpOf(mem, pageWalkCfg, pgdl, pgdh, address), address / 0x8000_0000_0000 % 2 == 1;
      && d.Walked? && d.high == upper && d.root == (if upper then pgdh else pgdl)
      && d.visits[0].table == d.root / 0x1000 % 0x10_0000_0000 * 0x1000
  {
    Powers();
    FieldIs(address, 47, 1);
    FieldIs(pgdl, 12, 36);
    FieldIs(pgdh, 12, 36);
  }

  // The levels are visited in order, with the digits of the address as indices.
  lemma {:induction false} VisitAt(mem: nat -> uint64, table: uint64, digits: seq<nat>, level: nat, width: nat, k: nat)
    requires digits != [] && k < |Translate(mem, table, digits, level, width)|
    ensures
      var v := Translate(mem, table, digits, level, width)[k];
      v.level == level + k && v.index == digits[k] && v.blockShift == PAGE_SHIFT + Span(|digits| - 1 - k, width)
    decreases k
  {
    if k > 0 {
      var first := Translate(mem, table, digits, level, width)[0];
      VisitAt(mem, Ppn(first.entry), digits[1..], level + 1, width, k - 1);
    }
  }

  lemma PrefixesDiffer(ds: seq<nat>, es: seq<nat>, k: nat)
    requires k < |ds| == |es|
    ensures ds[..k + 1] == es[..k + 1] <==> ds[0] == es[0] && ds[1..][..k] == es[1..][..k]
  {
    assert ds[..k + 1] == [ds[0]] + ds[1..][..k];
    assert es[..k + 1] == [es[0]] + es[1..][..k];
    HeadsDiffer(ds[0], ds[1..][..k], es[0], es[1..][..k]);
  }

  // Two walks from one table are the same exactly if their indices agree as far as the
  // first of them goes.
  lemma {:induction false} PrefixDecides(mem: nat -> uint64, table: uint64, ds: seq<nat>, es: seq<nat>, level: nat,
      width: nat)
    requires |ds| == |es| > 0
    ensures
      var k := |Translate(mem, table, ds, level, width)|;
      Translate(mem, table, ds, level, width) == Translate(mem, table, es, level, width) <==> ds[..k] == es[..k]
    decreases |ds|
  {
    var a, b := Translate(mem, table, ds, level, width), Translate(mem, table, es, level, width);
    var k := |a| - 1;
    PrefixesDiffer(ds, es, k);
    if ds[0] != es[0] {
      assert a[0].index != b[0].index;
    } else if a[0].kind.TablePointer? {
      var next := Ppn(a[0].entry);
      var c, d := Translate(mem, next, ds[1..], level + 1, width), Translate(mem, next, es[1..], level + 1, width);
      PrefixDecides(mem, next, ds[1..], es[1..], level + 1, width);
      assert a == [a[0]] + c && b == [a[0]] + d;
      HeadsDiffer(a[0], c, a[0], d);
    }
  }

  // The shift at which a walk stopped.
  function StopShift(visits: seq<Visit>): nat
    requires visits != []
  {
    visits[|visits| - 1].blockShift
  }

  lemma {:induction false} SpanAdds(m: nat, n: nat, width: nat)
    ensures Span(m + n, width) == Span(m, width) + Span(n, width)
  {
    if m > 0 {
      SpanAdds(m - 1, n, width);
    }
  }

  // The first digits of an address are the field above the shift that stops there.
  lemma FirstSelectors(address: uint64, levels: nat, width: nat, k: nat)
    requires k <= levels
    ensures Selectors(address, levels, width)[..k] ==
            Digits(Shr(address, PAGE_SHIFT + Span(levels - k, width)), k, width)
  {
    FirstDigits(Shr(address, PAGE_SHIFT), k, levels - k, width);
    ShiftTwice(address, PAGE_SHIFT, Span(levels - k, width));
  }

  lemma SelectorsAgree(a: uint64, b: uint64, levels: nat, width: nat, k: nat)
    requires k <= levels
    ensures
      var shift, span := PAGE_SHIFT + Span(levels - k, width), Span(k, width);
      Selectors(a, levels, width)[..k] == Selectors(b, levels, width)[..k]
      <==> Field(a, shift, span) == Field(b, shift, span)
  {
    FirstSelectors(a, levels, width, k);
    FirstSelectors(b, levels, width, k);
    var shift := PAGE_SHIFT + Span(levels - k, width);
    DigitsDecide(Shr(a, shift), Shr(b, shift), k, width);
  }

  lemma StopsAt(mem: nat -> uint64, table: uint64, digits: seq<nat>, width: nat)
    requires digits != []
    ensures
      var visits := Translate(mem, table, digits, 0, width);
      StopShift(visits) == PAGE_SHIFT + Span(|digits| - |visits|, width)
  {
    VisitAt(mem, table, digits, 0, width, |Translate(mem, table, digits, 0, width)| - 1);
  }

  // Two addresses take the same walk from a table exactly if they agree on the bits from
  // the shift at which the walk stops up to the top of the translated range.
  lemma SameWalkExactly(mem: nat -> uint64, table: uint64, a: uint64, b: uint64, levels: nat, width: nat)
    requires levels > 0
    ensures
      var visits := Translate(mem, table, Selectors(a, levels, width), 0, width);
      var shift, span := StopShift(visits), Span(|visits|, width);
      && shift + span == PAGE_SHIFT + Span(levels, width)
      && (visits == Translate(mem, table, Selectors(b, levels, width), 0, width)
          <==> Field(a, shift, span) == Field(b, shift, span))
  {
    var ds, es := Selectors(a, levels, width), Selectors(b, levels, width);
    var k := |Translate(mem, table, ds, 0, width)|;
    PrefixDecides(mem, table, ds, es, 0, width);
    StopsAt(mem, table, ds, width);
    SelectorsAgree(a, b, levels, width, k);
    SpanAdds(k, levels - k, width);
  }

  // Addresses in one block, with the same root, give the same dump: what is printed is the
  // mapping of the block, not of the address alone.
  lemma SameBlockSameDump(mem: nat -> uint64, pageWalkCfg: uint64, pgdl: uint64, pgdh: uint64, a: uint64, b: uint64)
    requires Supported(pageWalkCfg)
    requires BitSet(a, 47) == BitSet(b, 47)
    requires
      var shift := StopShift(DumpOf(mem, pageWalkCfg, pgdl, pgdh, a).visits);
      Shr(a, shift) == Shr(b, shift)
    ensures DumpOf(mem, pageWalkCfg, pgdl, pgdh, a) == DumpOf(mem, pageWalkCfg, pgdl, pgdh, b)
  {
    var levels, width := ParseMaxPageTableLevel(pageWalkCfg), ParsePageTableBitWidth(pageWalkCfg);
    SameWalkExactly(mem, Ppn(if BitSet(a, 47) then pgdh else pgdl), a, b, levels, width);
  }

  // ---- The TLB entry.

  // x & ~((1 << n) - 1)
  function Cleared(x: nat, n: nat): nat {
    Shr(x, n) * Pow2(n)
  }

  function TlbPageShift(tlbIdx: uint64): (shift: nat)
    ensures 0 < shift <= 47
    ensures shift == if 1 <= tlbIdx / 0x100_0000 % 0x40 <= 47 then tlbIdx / 0x100_0000 % 0x40 else 12
  {
    Powers();
    FieldIs(tlbIdx, 24, 6);
    var shift := Field(tlbIdx, 24, 6);
    if shift == 0 || shift > 47 then PAGE_SHIFT else shift
  }

  predicate CoversAddress(tlbIdx: uint64, tlbEHi: uint64, address: uint64) {
    var pairShift := TlbPageShift(tlbIdx) + 1;
    Cleared(tlbEHi, pairShift) == Cleared(address, pairShift)
  }

  // The address lies in the pair of pages that starts at the entry's rounded address.
  lemma CoversPair(tlbIdx: uint64, tlbEHi: uint64, address: uint64)
    ensures
      var size := 2 * Pow2(TlbPageShift(tlbIdx));
      var start := Cleared(tlbEHi, TlbPageShift(tlbIdx) + 1);
      CoversAddress(tlbIdx, tlbEHi, address) <==> start <= address < start + size
  {
    var n := TlbPageShift(tlbIdx) + 1;
    Split(tlbEHi, n);
    Split(address, n);
    SameMultiple(Shr(tlbEHi, n), Shr(address, n), Low(address, n), Pow2(n));
  }

  lemma SameMultiple(p: nat, q: nat, r: nat, size: nat)
    requires r < size
    ensures p * size == q * size <==> p * size <= q * size + r < p * size + size
  {
    if q > p {
      assert q * size >= (p + 1) * size;
    } else if q < p {
      assert (q + 1) * size <= p * size;
    }
  }
}
