// PciOptionRomInfo.c: walking the chained images of an expansion ROM (sections 6.3.1.1
// and 6.3.1.2 of the PCI Local Bus Specification, revision 2.2).
module PciOptionRom {
  import opened Bytes
  import opened ChainWalk

  const ROM_SIGNATURE: int := 0xAA55
  const PCIR_SIGNATURE: int := 0x5249_4350   // "PCIR"
  const EFI_SIGNATURE: int := 0x0EF1
  const CODE_TYPE_EFI: int := 3
  const ROM_HEADER_SIZE: nat := 26
  const PCIR_SIZE: nat := 24
  const EFI_HEADER_SIZE: nat := 26
  const UNIT: nat := 512

  // The PCI data structure, without its signature and reserved words.
  datatype Pcir = Pcir(
    vendorId: uint16, deviceId: uint16, length: uint16, revision: byte,
    class0: byte, class1: byte, class2: byte,
    imageLength: uint16, codeRevision: uint16, codeType: byte, indicator: byte)
  {
    predicate Last() { indicator >= 0x80 }

    function Size(): nat { UNIT * imageLength }
  }

  datatype Reason = TruncatedHeader | InvalidSignature | PcirOutside | TruncatedPcir | InvalidPcirSignature

  datatype Line =
    | Rejected(reason: Reason)
    | Image(pcir: Pcir)
    | InvalidLength
    | EfiInvalidSignature(signature: uint32)
    | EfiHeaderOutside(headerOffset: uint16)
    | Efi(machine: uint16, subsystem: uint16, compression: uint16, initSize: nat, headerOffset: uint16)

  function RangeInBuffer(bufferSize: nat, offset: nat, length: nat): (inside: bool)
    ensures inside <==> offset + length <= bufferSize
  {
    if offset > bufferSize then false
    else if length > bufferSize - offset then false
    else true
  }

  // ---- What one position of the ROM says.

  datatype Look = Bad(reason: Reason) | Found(pcir: Pcir)

  function ReadPcir(b: seq<byte>, at: nat): Pcir
    requires at + PCIR_SIZE <= |b|
  {
    Pcir(Le16(b, at + 4), Le16(b, at + 6), Le16(b, at + 10), b[at + 12], b[at + 13], b[at + 14], b[at + 15],
         Le16(b, at + 16), Le16(b, at + 18), b[at + 20], b[at + 21])
  }

  // `view` is the ROM from the position on.
  function LookAt(view: seq<byte>): Look {
    if |view| < ROM_HEADER_SIZE then Bad(TruncatedHeader)
    else if Le16(view, 0) != ROM_SIGNATURE then Bad(InvalidSignature)
    else
      var at := Le16(view, 24);
      if at > |view| then Bad(PcirOutside)
      else if at + PCIR_SIZE > |view| then Bad(TruncatedPcir)
      else if Le32(view, at) != PCIR_SIGNATURE then Bad(InvalidPcirSignature)
      else Found(ReadPcir(view, at))
  }

  // The image fits into what is left of the ROM.
  predicate Fits(view: seq<byte>, p: Pcir) {
    0 < p.Size() <= |view|
  }

  // The EFI fields share the bytes the plain header reserves.
  function EfiLines(image: seq<byte>, size: nat, p: Pcir): seq<Line>
    requires |image| >= EFI_HEADER_SIZE
  {
    if p.codeType != CODE_TYPE_EFI then []
    else if Le32(image, 4) != EFI_SIGNATURE then [EfiInvalidSignature(Le32(image, 4))]
    else
      (if Le16(image, 22) > size then [EfiHeaderOutside(Le16(image, 22))] else [])
      + [Efi(Le16(image, 10), Le16(image, 8), Le16(image, 12), UNIT * Le16(image, 2), Le16(image, 22))]
  }

  // One turn of the walk, at the start of the view.  Every line carries the image's number
  // and offset.
  function Turn(view: seq<byte>): Step<Line> {
    match LookAt(view)
    case Bad(reason) => Halt([Rejected(reason)])
    case Found(p) =>
      if !Fits(view, p) then Halt([Image(p), InvalidLength])
      else
        var lines := [Image(p)] + EfiLines(view, p.Size(), p);
        if p.Last() then Halt(lines) else Go(lines, p.Size())
  }

  // ---- The program.

  method PrintEfiRomHeader(rom: seq<byte>, imageOffset: nat, imageSize: nat, p: Pcir) returns (lines: seq<Line>)
    requires imageOffset + EFI_HEADER_SIZE <= |rom| && imageSize >= UNIT
    ensures lines == EfiLines(rom[imageOffset..], imageSize, p)
  {
    if p.codeType != CODE_TYPE_EFI {
      return [];
    }
    if !RangeInBuffer(|rom|, imageOffset, EFI_HEADER_SIZE) || imageSize < EFI_HEADER_SIZE {
      // "truncated": an image is never that short.
      assert false;
    }
    var header := rom[imageOffset..imageOffset + EFI_HEADER_SIZE];
    if Le32(header, 4) != EFI_SIGNATURE {
      return [EfiInvalidSignature(Le32(header, 4))];
    }
    lines := [];
    if Le16(header, 22) > imageSize {
      lines := lines + [EfiHeaderOutside(Le16(header, 22))];
    }
    lines := lines
      + [Efi(Le16(header, 10), Le16(header, 8), Le16(header, 12), UNIT * Le16(header, 2), Le16(header, 22))];
  }

  // The checks of one turn of the loop, up to the PCIR signature.
  method LookAtImage(rom: seq<byte>, offset: nat) returns (look: Look)
    requires offset < |rom|
    ensures look == LookAt(rom[offset..])
  {
    if !RangeInBuffer(|rom|, offset, ROM_HEADER_SIZE) {
      return Bad(TruncatedHeader);
    }
    var header := rom[offset..offset + ROM_HEADER_SIZE];
    if Le16(header, 0) != ROM_SIGNATURE {
      return Bad(InvalidSignature);
    }
    var at := Le16(header, 24);
    if at > |rom| - offset {
      return Bad(PcirOutside);
    }
    var pcirOffset := offset + at;
    if !RangeInBuffer(|rom|, pcirOffset, PCIR_SIZE) {
      return Bad(TruncatedPcir);
    }
    var pcir := rom[pcirOffset..pcirOffset + PCIR_SIZE];
    if Le32(pcir, 0) != PCIR_SIGNATURE {
      return Bad(InvalidPcirSignature);
    }
    return Found(ReadPcir(pcir, 0));
  }

  // What is printed for the image at offset, and whether the walk goes on.
  method PrintImage(rom: seq<byte>, offset: nat) returns (step: Step<Line>)
    requires offset < |rom|
    ensures step == Turn(rom[offset..])
    ensures step.Go? ==> 0 < step.size <= |rom| - offset
  {
    var look := LookAtImage(rom, offset);
    if look.Bad? {
      return Halt([Rejected(look.reason)]);
    }
    var p := look.pcir;
    var imageSize := UNIT * p.imageLength;
    if imageSize == 0 || imageSize > |rom| - offset {
      return Halt([Image(p), InvalidLength]);
    }
    var efi := PrintEfiRomHeader(rom, offset, imageSize, p);
    if p.indicator >= 0x80 {
      return Halt([Image(p)] + efi);
    }
    return Go([Image(p)] + efi, imageSize);
  }

  // One turn of the loop: the entries with this image's lines, and how the walk goes on.
  method PrintNext(rom: seq<byte>, offset: nat, index: nat, entries: seq<Entry<Line>>, ghost whole: seq<Entry<Line>>)
    returns (listed: seq<Entry<Line>>, step: Step<Line>)
    requires offset < |rom| && SoFar(Turn, rom, offset, index, entries, whole)
    ensures Advanced(Turn, rom, offset, index, listed, step, whole)
  {
    step := PrintImage(rom, offset);
    LoopTurn(Turn, rom, offset, index, entries, step, whole);
    listed := entries + [Entry(index, offset, step.lines)];
  }

  method PrintOptionRomImages(rom: seq<byte>) returns (entries: seq<Entry<Line>>)
    ensures entries == Walk(Turn, rom, 0, 0)
  {
    entries := [];
    var offset, index := 0, 0;
    ghost var whole := Walk(Turn, rom, 0, 0);
    LoopStarts(Turn, rom);
    while offset < |rom|
      invariant 0 <= offset <= |rom|
      invariant SoFar(Turn, rom, offset, index, entries, whole)
    {
      var step;
      entries, step := PrintNext(rom, offset, index, entries, whole);
      if step.Halt? {
        return;
      }
      offset := offset + step.size;
      index := index + 1;
    }
    LoopEnds(Turn, rom, index, entries, whole);
  }

  // The lines of a turn that gives up, and where the others go on, byte by byte.
  lemma TurnFromBytes(view: seq<byte>)
    ensures |view| < 26 ==> Turn(view) == Halt([Rejected(TruncatedHeader)])
    ensures |view| >= 26 ==>
      if view[..2] != [0x55, 0xAA] then Turn(view) == Halt([Rejected(InvalidSignature)])
      else
        var at := view[24] as int + 256 * view[25] as int;
        if at > |view| then Turn(view) == Halt([Rejected(PcirOutside)])
        else if at + 24 > |view| then Turn(view) == Halt([Rejected(TruncatedPcir)])
        else if view[at..at + 4] != [0x50, 0x43, 0x49, 0x52] then Turn(view) == Halt([Rejected(InvalidPcirSignature)])
        else
          var size := 512 * (view[at + 16] as int + 256 * view[at + 17] as int);
          && |Turn(view).lines| >= 1 && Turn(view).lines[0].Image?
          && if size == 0 || size > |view| then Turn(view).Halt? && Turn(view).lines[1..] == [InvalidLength]
             else if view[at + 21] >= 128 then Turn(view).Halt? && InvalidLength !in Turn(view).lines
             else Turn(view).Go? && Turn(view).size == size
  {
    if |view| >= 26 {
      assert view[..2] == [view[0], view[1]];
      var at := Le16(view, 24);
      if at + 24 <= |view| {
        assert view[at..at + 4] == [view[at], view[at + 1], view[at + 2], view[at + 3]];
      }
    }
  }

  // ---- Composition.

  // What is found and fits does not depend on what follows.
  lemma LookAhead(view: seq<byte>, more: seq<byte>)
    requires LookAt(view).Found? && Fits(view, LookAt(view).pcir)
    ensures LookAt(view + more) == LookAt(view)
  {
  }

  lemma TurnIsLocal()
    ensures Local(Turn)
  {
    forall view, more | Goes(Turn(view), view)
      ensures Turn(view + more) == Turn(view)
    {
      LookAhead(view, more);
    }
  }

  // If the walk of a goes through images that are not last and uses a up, the walk of a
  // followed by b is the walk of a, then the walk of b moved behind it.
  lemma RomsCompose(a: seq<byte>, b: seq<byte>)
    requires Complete(Turn, a)
    ensures Walk(Turn, a + b, 0, 0) == Walk(Turn, a, 0, 0) + Shifted(Walk(Turn, b, 0, 0), |a|, ItemsIn(Turn, a))
  {
    TurnIsLocal();
    WalkComposes(Turn, a, b);
  }

  // ---- The builder.

  // An image: whether it is marked as the last and the other seven bits of the indicator,
  // the 22 header bytes between signature and PCIR pointer, the bytes up to the PCIR, the
  // PCIR with its two reserved words, and the rest.
  datatype Source = Source(
    last: bool, bits: nat,
    header: seq<byte>, gap: seq<byte>, pcir: Pcir, reserved0: uint16, reserved1: uint16, code: seq<byte>)

  // The mark is bit 7 of the indicator; the length is in units of 512 bytes.
  predicate Buildable(s: Source) {
    && s.bits < 0x80 && s.pcir.indicator == (if s.last then 0x80 else 0) + s.bits
    && |s.header| == 22
    && 26 + |s.gap| < 0x1_0000
    && 26 + |s.gap| + 24 + |s.code| == 512 * s.pcir.imageLength
  }

  function PcirBytes(p: Pcir, reserved0: uint16, reserved1: uint16): (b: seq<byte>)
    ensures |b| == PCIR_SIZE
  {
    [0x50, 0x43, 0x49, 0x52] + Bytes16(p.vendorId) + Bytes16(p.deviceId) + Bytes16(reserved0) + Bytes16(p.length)
    + [p.revision, p.class0, p.class1, p.class2]
    + Bytes16(p.imageLength) + Bytes16(p.codeRevision) + [p.codeType, p.indicator] + Bytes16(reserved1)
  }

  function HeaderBytes(s: Source): (b: seq<byte>)
    requires Buildable(s)
    ensures |b| == ROM_HEADER_SIZE
  {
    [0x55, 0xAA] + s.header + Bytes16(26 + |s.gap|)
  }

  function Build(s: Source): (b: seq<byte>)
    requires Buildable(s)
    ensures |b| == 512 * s.pcir.imageLength
  {
    HeaderBytes(s) + s.gap + PcirBytes(s.pcir, s.reserved0, s.reserved1) + s.code
  }

  lemma ReadPcirBytes(p: Pcir, reserved0: uint16, reserved1: uint16)
    ensures ReadPcir(PcirBytes(p, reserved0, reserved1), 0) == p
    ensures Le32(PcirBytes(p, reserved0, reserved1), 0) == PCIR_SIGNATURE
  {
    var b := PcirBytes(p, reserved0, reserved1);
    assert b[0..4] == [0x50, 0x43, 0x49, 0x52];
    assert b[4..6] == Bytes16(p.vendorId) && b[6..8] == Bytes16(p.deviceId) && b[10..12] == Bytes16(p.length);
    assert b[16..18] == Bytes16(p.imageLength) && b[18..20] == Bytes16(p.codeRevision);
    SliceAt(b, 4); SliceAt(b, 6); SliceAt(b, 10); SliceAt(b, 16); SliceAt(b, 18);
    assert Le32(b, 0) == Le32(b[0..4], 0);
  }

  lemma SliceAt(b: seq<byte>, at: nat)
    requires at + 2 <= |b|
    ensures Le16(b, at) == Le16(b[at..at + 2], 0)
  {
  }

  lemma SamePcir(view: seq<byte>, at: nat)
    requires at + PCIR_SIZE <= |view|
    ensures ReadPcir(view, at) == ReadPcir(view[at..at + PCIR_SIZE], 0)
    ensures Le32(view, at) == Le32(view[at..at + PCIR_SIZE], 0)
  {
  }

  lemma LookAtBuilt(s: Source, more: seq<byte>)
    requires Buildable(s)
    ensures LookAt(Build(s) + more) == Found(s.pcir)
    ensures Fits(Build(s) + more, s.pcir)
    ensures (Build(s) + more)[..ROM_HEADER_SIZE] == HeaderBytes(s)
  {
    var view, at := Build(s) + more, ROM_HEADER_SIZE + |s.gap|;
    var h, p := HeaderBytes(s), PcirBytes(s.pcir, s.reserved0, s.reserved1);
    assert view[..ROM_HEADER_SIZE] == h;
    assert view[0..2] == [0x55, 0xAA];
    assert view[24..26] == Bytes16(at);
    SliceAt(view, 0); SliceAt(view, 24);
    assert view[at..at + PCIR_SIZE] == p;
    SamePcir(view, at);
    ReadPcirBytes(s.pcir, s.reserved0, s.reserved1);
  }

  lemma EfiInHeader(image: seq<byte>, size: nat, p: Pcir)
    requires |image| >= EFI_HEADER_SIZE
    ensures EfiLines(image, size, p) == EfiLines(image[..EFI_HEADER_SIZE], size, p)
  {
  }

  // What an image should be listed as.
  function PieceOf(s: Source): Piece<Line>
    requires Buildable(s)
  {
    Piece(Build(s), [Image(s.pcir)] + EfiLines(HeaderBytes(s), s.pcir.Size(), s.pcir))
  }

  // The fields an EFI image keeps in those 22 bytes.
  datatype EfiHeader = EfiHeader(
    initSize: uint16, subsystem: uint16, machine: uint16, compression: uint16,
    reserved: seq<byte>, headerOffset: uint16)

  function EfiHeaderBytes(e: EfiHeader): (b: seq<byte>)
    requires |e.reserved| == 8
    ensures |b| == 22
  {
    Bytes16(e.initSize) + [0xF1, 0x0E, 0, 0] + Bytes16(e.subsystem) + Bytes16(e.machine) + Bytes16(e.compression)
    + e.reserved + Bytes16(e.headerOffset)
  }

  // An EFI image is listed with the fields it was built from.
  lemma EfiReadBack(s: Source, e: EfiHeader)
    requires Buildable(s) && s.pcir.codeType == 3
    requires |e.reserved| == 8 && s.header == EfiHeaderBytes(e)
    ensures PieceOf(s).lines ==
            [Image(s.pcir)]
            + (if e.headerOffset > |Build(s)| then [EfiHeaderOutside(e.headerOffset)] else [])
            + [Efi(e.machine, e.subsystem, e.compression, 512 * e.initSize, e.headerOffset)]
  {
    var h := HeaderBytes(s);
    assert h[2..4] == Bytes16(e.initSize) && h[8..10] == Bytes16(e.subsystem) && h[10..12] == Bytes16(e.machine);
    assert h[12..14] == Bytes16(e.compression) && h[22..24] == Bytes16(e.headerOffset);
    assert h[4..8] == [0xF1, 0x0E, 0, 0];
    SliceAt(h, 2); SliceAt(h, 8); SliceAt(h, 10); SliceAt(h, 12); SliceAt(h, 22);
    assert Le32(h, 4) == Le32(h[4..8], 0);
  }

  function Pieces(images: seq<Source>): (ps: seq<Piece<Line>>)
    requires forall i :: 0 <= i < |images| ==> Buildable(images[i])
    ensures |ps| == |images| && forall i :: 0 <= i < |ps| ==> ps[i] == PieceOf(images[i])
  {
    seq(|images|, i requires 0 <= i < |images| => PieceOf(images[i]))
  }

  // A ROM of these images; the bytes after them belong to the buffer but to no image.
  function BuildRom(images: seq<Source>, after: seq<byte>): seq<byte>
    requires forall i :: 0 <= i < |images| ==> Buildable(images[i])
  {
    Joined(Pieces(images), after)
  }

  // The final one of the images is marked, and no other.
  predicate LastAtEnd(images: seq<Source>) {
    images != [] && forall i :: 0 <= i < |images| ==> (images[i].last <==> i == |images| - 1)
  }

  lemma TurnAtBuilt(s: Source, more: seq<byte>)
    requires Buildable(s)
    ensures Build(s) != []
    ensures Turn(Build(s) + more) ==
            if s.last then Halt(PieceOf(s).lines) else Go(PieceOf(s).lines, |Build(s)|)
  {
    LookAtBuilt(s, more);
    EfiInHeader(Build(s) + more, s.pcir.Size(), s.pcir);
  }

  lemma {:induction false} ImagesRecognized(images: seq<Source>, after: seq<byte>)
    requires forall i :: 0 <= i < |images| ==> Buildable(images[i])
    requires LastAtEnd(images)
    ensures Recognized(Turn, Pieces(images), after)
    decreases |images|
  {
    var rest := images[1..];
    assert Pieces(images)[1..] == Pieces(rest);
    TurnAtBuilt(images[0], Joined(Pieces(rest), after));
    if rest != [] {
      ImagesRecognized(rest, after);
    }
  }

  // The walker inverts the builder: a ROM built from images of which just the final one is
  // marked last lists as exactly those images, whatever bytes follow.
  lemma WalkInvertsBuild(images: seq<Source>, after: seq<byte>)
    requires forall i :: 0 <= i < |images| ==> Buildable(images[i])
    requires LastAtEnd(images)
    ensures Walk(Turn, BuildRom(images, after), 0, 0) == Listing(Pieces(images), 0, 0)
  {
    ImagesRecognized(images, after);
    WalkInvertsJoin(Turn, Pieces(images), after, 0, 0);
  }

  lemma {:induction false} UnmarkedPassed(images: seq<Source>, after: seq<byte>)
    requires forall i :: 0 <= i < |images| ==> Buildable(images[i]) && !images[i].last
    ensures Passed(Turn, Pieces(images), after)
    decreases |images|
  {
    if images != [] {
      var rest := images[1..];
      assert Pieces(images)[1..] == Pieces(rest);
      TurnAtBuilt(images[0], Joined(Pieces(rest), after));
      UnmarkedPassed(rest, after);
    }
  }

  // Images none of which is marked, before any ROM: they are listed, and the walk goes on in
  // that ROM, with the next number and offset.
  lemma UnmarkedCompose(images: seq<Source>, b: seq<byte>)
    requires forall i :: 0 <= i < |images| ==> Buildable(images[i]) && !images[i].last
    ensures Walk(Turn, BuildRom(images, b), 0, 0) ==
            Listing(Pieces(images), 0, 0) + Walk(Turn, b, Total(Pieces(images)), |images|)
  {
    UnmarkedPassed(images, b);
    WalkPasses(Turn, Pieces(images), b);
  }
}
