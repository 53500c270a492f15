/** The QR encoder (web/app/src/qr.ts:77-264): function patterns, placement in serpentine order under
    mask 0, and format information, all written in place into the module matrix. */
module QrCode {
  import opened Bits
  import opened BitStrings
  import opened Wrappers
  import opened QrBits
  import opened QrLayout
  import opened QrStream
  import opened ReedSolomon
  import Gf256
  import QrDivisor

  datatype Version = Version(number: nat, size: nat, dataCapacity: nat, ecBytes: nat)

  const VERSIONS: seq<Version> := [
    Version(1, 21, 16, 10), Version(2, 25, 28, 16), Version(3, 29, 44, 26), Version(4, 33, 64, 18)]

  /** The smallest version that fits by the encoder's own estimate; the largest for anything longer. */
  function PickVersion(length: nat): (v: Version)
    ensures v in VERSIONS
  {
    var needed := length + 3;
    if VERSIONS[0].dataCapacity >= needed then VERSIONS[0]
    else if VERSIONS[1].dataCapacity >= needed then VERSIONS[1]
    else if VERSIONS[2].dataCapacity >= needed then VERSIONS[2]
    else VERSIONS[3]
  }

  function Codewords(text: seq<Byte>, v: Version): seq<Byte> {
    var data := DataCodewords(text, v.dataCapacity);
    data + Remainder(data, Generator(v.ecBytes)[..v.ecBytes])
  }

  /** The bit placed `k`-th: light once the stream has run out. */
  function StreamBit(stream: seq<Byte>, k: nat): bool {
    k < 8 * |stream| && Bit(stream[k / 8], 7 - k % 8)
  }

  /** The value of `bitIdx` once `n` cells are filled. */
  function Consumed(n: nat, stream: seq<Byte>): nat {
    if n < 8 * |stream| then n else 8 * |stream|
  }

  predicate Mask(row: nat, col: nat) {
    (row + col) % 2 == 0
  }

  // ---------- the fixed part of the symbol ----------

  /** A finder pattern with its separator; (0, 0) is the corner of the dark ring. */
  predicate FinderModule(r: int, c: int) {
    !(r == -1 || r == 7 || c == -1 || c == 7) &&
    (r == 0 || r == 6 || c == 0 || c == 6 || (2 <= r <= 4 && 2 <= c <= 4))
  }

  /** Format bit `i` of level M with mask 0, most significant first. */
  predicate FormatBit(i: nat)
    requires i < 15
  {
    Bit(0x5412, 14 - i)
  }

  /** A reserved cell before the format information is written. */
  predicate PatternModule(size: nat, r: nat, c: nat)
    requires IsSize(size)
  {
    if r < 8 && c < 8 then FinderModule(r, c)
    else if r + 8 >= size && c < 8 then FinderModule(r - (size - 7), c)
    else if r < 8 && c + 8 >= size then FinderModule(r, c - (size - 7))
    else if r == 6 then c % 2 == 0
    else if c == 6 then r % 2 == 0
    else r == size - 8 && c == 8
  }

  /** A reserved cell of the finished symbol. */
  predicate FixedModule(size: nat, r: nat, c: nat)
    requires IsSize(size) && r < size && c < size
  {
    if r == 8 && c < 6 then FormatBit(c)
    else if r == 8 && c == 7 then FormatBit(6)
    else if r == 8 && c == 8 then FormatBit(7)
    else if r == 7 && c == 8 then FormatBit(8)
    else if r < 6 && c == 8 then FormatBit(14 - r)
    else if c == 8 && r + 8 >= size then FormatBit(size - 1 - r)
    else if r == 8 && c + 7 >= size then FormatBit(c + 15 - size)
    else PatternModule(size, r, c)
  }

  const FINDER: seq<string> := [
    "#######",
    "#.....#",
    "#.###.#",
    "#.###.#",
    "#.###.#",
    "#.....#",
    "#######"]

  lemma FinderIs()
    ensures forall r, c | 0 <= r < 7 && 0 <= c < 7 :: FinderModule(r, c) == (FINDER[r][c] == '#')
  {
  }

  /** Level M and mask 0, under the code's own mask. */
  const FORMAT: string := "101010000010010"

  lemma FormatBitIs(i: nat)
    requires i < 15
    ensures FormatBit(i) == (FORMAT[i] == '1')
  {
    hide Bit;
    BitHalves(0x5412, 14 - i, 10761);
    BitHalves(10761, 13 - i, 5380);
    BitHalves(5380, 12 - i, 2690);
    BitHalves(2690, 11 - i, 1345);
    BitHalves(1345, 10 - i, 672);
    BitHalves(672, 9 - i, 336);
    BitHalves(336, 8 - i, 168);
    BitHalves(168, 7 - i, 84);
    BitHalves(84, 6 - i, 42);
    BitHalves(42, 5 - i, 21);
    BitHalves(21, 4 - i, 10);
    BitHalves(10, 3 - i, 5);
    BitHalves(5, 2 - i, 2);
    BitHalves(2, 1 - i, 1);
    BitHalves(1, 0 - i, 0);
  }

  lemma BitHalves(x: nat, i: int, half: nat)
    requires half == x / 2
    ensures i >= 0 ==> Bit(x, i) == if i == 0 then x % 2 == 1 else Bit(half, i - 1)
  {
  }

  /** The first copy goes around the upper left finder pattern, past the timing lines. */
  function FormatCell(i: nat): Cell
    requires i < 15
  {
    if i < 6 then Cell(8, i) else if i < 8 then Cell(8, i + 1) else if i == 8 then Cell(7, 8) else Cell(14 - i, 8)
  }

  // ---------- reading back ----------

  lemma VersionFacts(v: Version)
    requires v in VERSIONS
    ensures IsSize(v.size) && v.size == 4 * v.number + 17 && v.ecBytes <= 510
  {
  }

  /** No version's error correction bytes make every codeword vanish at the required powers; that of the byte 1
      does not in any version. */
  lemma NoVersionVanishes(v: Version)
    requires v in VERSIONS
    ensures !CodewordsVanish(v.ecBytes)
    ensures !Vanishes([1] + Remainder([1], Generator(v.ecBytes)[..v.ecBytes]), v.ecBytes)
  {
    hide CodewordsVanish, Vanishes, Generator, Remainder;
    assert 1 < v.ecBytes <= 255;
    QrDivisor.CodewordsVanishIff(v.ecBytes);
  }

  /** The data cells of the symbol for `text`, in walk order and unmasked. */
  function SymbolBits(text: seq<Byte>, v: Version): (bits: seq<bool>)
    requires IsSize(v.size)
  {
    var stream := Codewords(text, v);
    seq(|DataCells(v.size)|, k requires 0 <= k => StreamBit(stream, k))
  }

  lemma StreamStartsWithPayload(text: seq<Byte>, v: Version, k: nat)
    requires k < 12 + 8 * |text|
    ensures StreamBit(Codewords(text, v), k) == Payload(text)[k]
  {
    hide DataCodewords, Remainder, Generator, Payload, ByteBits;
    var data := DataCodewords(text, v.dataCapacity);
    var ec := Remainder(data, Generator(v.ecBytes)[..v.ecBytes]);
    CodewordsHoldPayload(text, v.dataCapacity);
    ByteBitsConcat(data, ec);
    ByteBitsAt(data + ec, k);
  }

  lemma PickedRoom(length: nat)
    ensures IsSize(PickVersion(length).size)
    ensures 12 <= |DataCells(PickVersion(length).size)| < 12 + 8 * 256
    ensures 12 + 8 * length <= |DataCells(PickVersion(length).size)| <==> length <= 102
  {
    hide DataCells;
    VersionFacts(PickVersion(length));
    DataCellCount(PickVersion(length).size);
  }

  /** Main result: the finished symbol gives the text back exactly when it has at most 102 bytes. (The
      encoder's own estimate picks version 4 for everything from 42 bytes on, whether it fits or not.) */
  lemma SymbolReadsBack(text: seq<Byte>)
    ensures IsSize(PickVersion(|text|).size)
    ensures ReadText(SymbolBits(text, PickVersion(|text|))) == Some(text) <==> |text| <= 102
  {
    hide ReadText, Payload, StreamBit, Codewords, PickVersion, DataCells;
    PickedRoom(|text|);
    var v := PickVersion(|text|);
    var bits, p := SymbolBits(text, v), Payload(text);
    forall k | 0 <= k < |bits| && k < |p| ensures bits[k] == p[k] {
      StreamStartsWithPayload(text, v, k);
    }
    ReadsBackIffItFits(text, bits);
  }

  /** The symbol's cells hold a codeword of the text, with the data and check bytes of the smallest version that has two
      bytes to spare; failing that, of the largest. */
  ghost predicate SymbolHolds(size: nat, bits: seq<bool>, text: seq<Byte>) {
    if |text| <= 13 then size == 21 && HoldsText(bits, text, 16, 10)
    else if |text| <= 25 then size == 25 && HoldsText(bits, text, 28, 16)
    else if |text| <= 41 then size == 29 && HoldsText(bits, text, 44, 26)
    else size == 33 && HoldsText(bits, text, 64, 18)
  }

  lemma BitsAreStreamed(text: seq<Byte>, v: Version)
    requires IsSize(v.size)
    ensures HoldsText(SymbolBits(text, v), text, v.dataCapacity, v.ecBytes)
  {
    hide IsCodeword, DataCells, Codewords, ByteBits;
    CodewordsAreCodeword(text, v);
    var stream, bits := Codewords(text, v), SymbolBits(text, v);
    forall k | 0 <= k < |bits| ensures bits[k] == (k < 8 * |stream| && ByteBits(stream)[k]) {
      if k < 8 * |stream| { ByteBitsAt(stream, k); }
    }
    assert Streamed(bits, stream);
  }

  lemma CodewordsAreCodeword(text: seq<Byte>, v: Version)
    ensures IsCodeword(text, v.dataCapacity, v.ecBytes, Codewords(text, v))
  {
    hide IsCodeword, Remainder, DataCodewords, Generator;
    EncodedIsCodeword(text, v.dataCapacity, v.ecBytes);
  }

  lemma SymbolHoldsText(text: seq<Byte>)
    ensures IsSize(PickVersion(|text|).size)
    ensures SymbolHolds(PickVersion(|text|).size, SymbolBits(text, PickVersion(|text|)), text)
  {
    hide HoldsText, SymbolBits;
    VersionFacts(PickVersion(|text|));
    BitsAreStreamed(text, PickVersion(|text|));
  }

  /** How many bits the codeword of a text has. */
  function CodewordBits(text: seq<Byte>): nat {
    var v := PickVersion(|text|);
    8 * (DataLength(text, v.dataCapacity) + v.ecBytes)
  }

  /** A symbol has room for the whole codeword exactly for at most 84 bytes of text; beyond that the last check bytes
      are cut off. */
  lemma CodewordFitsIff(text: seq<Byte>)
    ensures IsSize(PickVersion(|text|).size)
    ensures CodewordBits(text) <= |DataCells(PickVersion(|text|).size)| <==> |text| <= 84
  {
    hide DataCells;
    VersionFacts(PickVersion(|text|));
    DataCellCount(PickVersion(|text|).size);
  }

  /** If it has, the first bits, packed, are the data and check bytes. */
  lemma FirstBytes(text: seq<Byte>, v: Version, bits: seq<bool>)
    requires |text| <= 84 && v == PickVersion(|text|) && IsSize(v.size) && bits == SymbolBits(text, v)
    ensures CodewordBits(text) <= |bits| && CodewordBits(text) % 8 == 0
    ensures IsCodeword(text, v.dataCapacity, v.ecBytes, Pack(bits[..CodewordBits(text)]))
  {
    hide DataCells, IsCodeword, HoldsText, Pack, PickVersion, SymbolBits;
    CodewordFitsIff(text);
    SymbolLength(text, v);
    BitsAreStreamed(text, v);
    FirstBitsAreCodeword(bits, text, v.dataCapacity, v.ecBytes);
  }

  lemma SymbolLength(text: seq<Byte>, v: Version)
    requires IsSize(v.size)
    ensures |SymbolBits(text, v)| == |DataCells(v.size)|
  {
    hide DataCells;
  }

  class QRCode {
    const size: nat
    const modules: array2<bool>

    ghost predicate Valid() {
      IsSize(size) && modules.Length0 == size && modules.Length1 == size
    }

    /** Cell `placed[k]` shows bit `k` of the stream under the mask. */
    ghost predicate Shows(placed: seq<Cell>, stream: seq<Byte>)
      requires Valid()
      reads modules
    {
      (forall k | 0 <= k < |placed| :: placed[k].row < size && placed[k].col < size) &&
      forall k | 0 <= k < |placed| ::
        modules[placed[k].row, placed[k].col] == (StreamBit(stream, k) != Mask(placed[k].row, placed[k].col))
    }

    ghost predicate FixedCells()
      requires Valid()
      reads modules
    {
      forall r, c | 0 <= r < size && 0 <= c < size && Reserved(size, r, c) :: modules[r, c] == FixedModule(size, r, c)
    }

    /** What a reader sees: the cells in walk order, unmasked. */
    ghost function ReadBits(): (bits: seq<bool>)
      requires Valid()
      reads modules
      ensures |bits| == |DataCells(size)|
    {
      DataCellsExact(size);
      var cells := DataCells(size);
      seq(|cells|, k requires 0 <= k < |cells| reads modules =>
        assert cells[k] in cells; modules[cells[k].row, cells[k].col] != Mask(cells[k].row, cells[k].col))
    }

    /** Dark cells of the mask, where row and column add up to an even number, are inverted. */
    lemma ReadUnderMask(k: nat)
      requires Valid() && k < |DataCells(size)|
      ensures var c := DataCells(size)[k];
              c.row < size && c.col < size && modules[c.row, c.col] == (ReadBits()[k] != ((c.row + c.col) % 2 == 0))
    {
      hide DataCells;
      DataCellsExact(size);
      assert DataCells(size)[k] in DataCells(size);
    }

    /** Both copies of the format information show the fifteen bits of level M and mask 0. */
    lemma FormatShows(i: nat)
      requires Valid() && FixedCells() && i < 15
      ensures var c := FormatCell(i); modules[c.row, c.col] == (FORMAT[i] == '1')
      ensures if i < 8 then modules[size - 1 - i, 8] == (FORMAT[i] == '1')
              else modules[8, size - 15 + i] == (FORMAT[i] == '1')
    {
      hide PatternModule;
      FormatBitIs(i);
    }

    /** The three corners show the finder pattern, and dark and light cells take turns between them. */
    lemma PatternsShow()
      requires Valid() && FixedCells()
      ensures forall r, c | 0 <= r < 7 && 0 <= c < 7 ::
        modules[r, c] == modules[size - 7 + r, c] == modules[r, size - 7 + c] == (FINDER[r][c] == '#')
      ensures forall k | 8 <= k < size - 8 :: modules[6, k] == modules[k, 6] == (k % 2 == 0)
    {
      FinderIs();
      hide FinderModule, FormatBit;
    }

    /** Draws one finder pattern, clipped to the symbol. */
    method DrawFinderPattern(row: nat, col: nat, isReserved: array2<bool>)
      requires Valid() && isReserved.Length0 == size && isReserved.Length1 == size && isReserved != modules
      modifies modules, isReserved
      ensures forall i, j | 0 <= i < size && 0 <= j < size ::
                if row - 1 <= i <= row + 7 && col - 1 <= j <= col + 7
                then isReserved[i, j] && modules[i, j] == FinderModule(i - row, j - col)
                else isReserved[i, j] == old(isReserved[i, j]) && modules[i, j] == old(modules[i, j])
    {
      for r := -1 to 8
        invariant forall i, j | 0 <= i < size && 0 <= j < size ::
                    if row - 1 <= i < row + r && col - 1 <= j <= col + 7
                    then isReserved[i, j] && modules[i, j] == FinderModule(i - row, j - col)
                    else isReserved[i, j] == old(isReserved[i, j]) && modules[i, j] == old(modules[i, j])
      {
        for c := -1 to 8
          invariant forall i, j | 0 <= i < size && 0 <= j < size ::
                      if (row - 1 <= i < row + r && col - 1 <= j <= col + 7) || (i == row + r && col - 1 <= j < col + c)
                      then isReserved[i, j] && modules[i, j] == FinderModule(i - row, j - col)
                      else isReserved[i, j] == old(isReserved[i, j]) && modules[i, j] == old(modules[i, j])
        {
          var curR, curC := row + r, col + c;
          if curR >= 0 && curR < size && curC >= 0 && curC < size {
            isReserved[curR, curC] := true;
            if r == -1 || r == 7 || c == -1 || c == 7 {
              modules[curR, curC] := false;
            } else if r == 0 || r == 6 || c == 0 || c == 6 || (r >= 2 && r <= 4 && c >= 2 && c <= 4) {
              modules[curR, curC] := true;
            } else {
              modules[curR, curC] := false;
            }
          }
        }
      }
    }

    method DrawTiming(isReserved: array2<bool>)
      requires Valid() && isReserved.Length0 == size && isReserved.Length1 == size && isReserved != modules
      modifies modules, isReserved
      ensures forall i, j | 0 <= i < size && 0 <= j < size ::
                if (i == 6 && 8 <= j < size - 8) || (j == 6 && 8 <= i < size - 8)
                then isReserved[i, j] && modules[i, j] == ((if i == 6 then j else i) % 2 == 0)
                else isReserved[i, j] == old(isReserved[i, j]) && modules[i, j] == old(modules[i, j])
    {
      for k := 8 to size - 8
        invariant forall i, j | 0 <= i < size && 0 <= j < size ::
                    if (i == 6 && 8 <= j < k) || (j == 6 && 8 <= i < k)
                    then isReserved[i, j] && modules[i, j] == ((if i == 6 then j else i) % 2 == 0)
                    else isReserved[i, j] == old(isReserved[i, j]) && modules[i, j] == old(modules[i, j])
      {
        var val := k % 2 == 0;
        modules[6, k] := val;
        isReserved[6, k] := true;
        modules[k, 6] := val;
        isReserved[k, 6] := true;
      }
    }

    /** Sets the format areas aside; their modules come last. */
    method ReserveFormat(isReserved: array2<bool>)
      requires Valid() && isReserved.Length0 == size && isReserved.Length1 == size && isReserved != modules
      modifies isReserved
      ensures forall i, j | 0 <= i < size && 0 <= j < size ::
                isReserved[i, j] == (old(isReserved[i, j]) ||
                  (i == 8 && (j < 9 || j + 8 >= size) && j != 6) || (j == 8 && (i < 9 || i + 8 >= size) && i != 6))
    {
      for k := 0 to 9
        invariant forall i, j | 0 <= i < size && 0 <= j < size ::
                    isReserved[i, j] == (old(isReserved[i, j]) || (i == 8 && j < k && j != 6) ||
                                         (j == 8 && i < k && i != 6))
      {
        if k != 6 {
          isReserved[8, k] := true;
          isReserved[k, 8] := true;
        }
      }
      for k := 0 to 8
        invariant forall i, j | 0 <= i < size && 0 <= j < size ::
                    isReserved[i, j] == (old(isReserved[i, j]) ||
                      (i == 8 && (j < 9 || j + k >= size) && j != 6) || (j == 8 && (i < 9 || i + k >= size) && i != 6))
      {
        isReserved[8, size - 1 - k] := true;
        isReserved[size - 1 - k, 8] := true;
      }
    }

    method DrawFunctionPatterns(number: nat, isReserved: array2<bool>)
      requires Valid() && isReserved.Length0 == size && isReserved.Length1 == size && isReserved != modules
      requires size == 4 * number + 17
      requires forall i, j | 0 <= i < size && 0 <= j < size :: !modules[i, j] && !isReserved[i, j]
      modifies modules, isReserved
      ensures forall i, j | 0 <= i < size && 0 <= j < size :: isReserved[i, j] == Reserved(size, i, j)
      ensures forall i, j | 0 <= i < size && 0 <= j < size && Reserved(size, i, j) ::
                modules[i, j] == PatternModule(size, i, j)
    {
      DrawFinderPattern(0, 0, isReserved);
      DrawFinderPattern(size - 7, 0, isReserved);
      DrawFinderPattern(0, size - 7, isReserved);
      DrawTiming(isReserved);
      var darkRow := 4 * number + 9;
      modules[darkRow, 8] := true;
      isReserved[darkRow, 8] := true;
      ReserveFormat(isReserved);
    }

    /** Places the next bit of the stream in one cell, unless the cell is reserved. */
    method PlaceCell(row: nat, col: nat, isReserved: array2<bool>, stream: seq<Byte>, bitIdx: nat,
                     ghost placed: seq<Cell>)
      returns (next: nat)
      requires Valid() && isReserved.Length0 == size && isReserved.Length1 == size && isReserved != modules
      requires row < size && col < size && isReserved[row, col] == Reserved(size, row, col)
      requires Shows(placed, stream) && Cell(row, col) !in placed
      requires bitIdx == Consumed(|placed|, stream)
      modifies modules
      ensures Shows(placed + IfFree(size, Cell(row, col)), stream)
      ensures next == Consumed(|placed + IfFree(size, Cell(row, col))|, stream)
      ensures forall i, j | 0 <= i < size && 0 <= j < size && (i != row || j != col || Reserved(size, i, j)) ::
                modules[i, j] == old(modules[i, j])
    {
      next := bitIdx;
      if !isReserved[row, col] {
        var bit := false;
        if bitIdx < 8 * |stream| {
          var byteI, bitI := bitIdx / 8, 7 - bitIdx % 8;
          bit := Bit(stream[byteI], bitI);
          next := next + 1;
        }
        var mask := (row + col) % 2 == 0;
        modules[row, col] := bit != mask;
        ghost var all := placed + [Cell(row, col)];
        forall k | 0 <= k < |all|
          ensures all[k].row < size && all[k].col < size
          ensures modules[all[k].row, all[k].col] == (StreamBit(stream, k) != Mask(all[k].row, all[k].col))
        {
          if k < |placed| { assert placed[k] in placed; }
        }
      } else {
        assert placed + [] == placed;
      }
    }

    /** The two cells of one row, right before left. */
    method PlaceRow(row: nat, right: nat, isReserved: array2<bool>, stream: seq<Byte>, bitIdx: nat,
                    ghost placed: seq<Cell>)
      returns (next: nat)
      requires Valid() && isReserved.Length0 == size && isReserved.Length1 == size && isReserved != modules
      requires forall i, j | 0 <= i < size && 0 <= j < size :: isReserved[i, j] == Reserved(size, i, j)
      requires row < size && 0 < right < size
      requires Shows(placed, stream) && Cell(row, right) !in placed && Cell(row, right - 1) !in placed
      requires bitIdx == Consumed(|placed|, stream)
      modifies modules
      ensures var now := placed + IfFree(size, Cell(row, right)) + IfFree(size, Cell(row, right - 1));
        Shows(now, stream) && next == Consumed(|now|, stream)
      ensures forall i, j | 0 <= i < size && 0 <= j < size && Reserved(size, i, j) ::
          modules[i, j] == old(modules[i, j])
    {
      next := bitIdx;
      ghost var now := placed;
      for c := 0 to 2
        invariant now == placed + (if c > 0 then IfFree(size, Cell(row, right)) else []) +
                           (if c > 1 then IfFree(size, Cell(row, right - 1)) else [])
        invariant Shows(now, stream)
        invariant next == Consumed(|now|, stream)
        invariant forall i, j | 0 <= i < size && 0 <= j < size && Reserved(size, i, j) ::
            modules[i, j] == old(modules[i, j])
      {
        next := PlaceCell(row, right - c, isReserved, stream, next, now);
        now := now + IfFree(size, Cell(row, right - c));
      }
    }

    method PlacePair(ghost p: nat, right: nat, up: bool, isReserved: array2<bool>, stream: seq<Byte>, bitIdx: nat)
      returns (next: nat)
      requires Valid() && isReserved.Length0 == size && isReserved.Length1 == size && isReserved != modules
      requires forall i, j | 0 <= i < size && 0 <= j < size :: isReserved[i, j] == Reserved(size, i, j)
      requires 2 * p < size - 1 && right == Right(size, p) && up == (p % 2 == 0)
      requires Shows(Walk(size, p), stream)
      requires bitIdx == Consumed(|Walk(size, p)|, stream)
      modifies modules
      ensures Shows(Walk(size, p + 1), stream)
      ensures next == Consumed(|Walk(size, p + 1)|, stream)
      ensures forall i, j | 0 <= i < size && 0 <= j < size && Reserved(size, i, j) ::
          modules[i, j] == old(modules[i, j])
    {
      hide Walk, PairCells, IfFree, Reserved, StreamBit, Consumed, Mask, Shows;
      next := bitIdx;
      ghost var before := Walk(size, p);
      PairUnfold(size, right, up, 0);
      assert before + [] == before;
      for vert := 0 to size
        invariant Shows(before + PairCells(size, right, up, vert), stream)
        invariant var now := before + PairCells(size, right, up, vert);
          next == Consumed(|now|, stream)
        invariant forall i, j | 0 <= i < size && 0 <= j < size && Reserved(size, i, j) ::
            modules[i, j] == old(modules[i, j])
      {
        var row := if up then size - 1 - vert else vert;
        ghost var cells := PairCells(size, right, up, vert);
        RowIsNew(size, p, up, vert);
        PairUnfold(size, right, up, vert + 1);
        assert before + PairCells(size, right, up, vert + 1)
            == before + cells + IfFree(size, Cell(row, right)) + IfFree(size, Cell(row, right - 1));
        next := PlaceRow(row, right, isReserved, stream, next, before + cells);
      }
      WalkUnfold(size, p + 1);
    }

    /** The walk has filled `p` pairs of columns with the first `bitIdx` bits, and goes on at `right`. */
    ghost predicate Reached(p: nat, right: int, up: bool, bitIdx: nat, stream: seq<Byte>)
      requires Valid()
      reads modules
    {
      && 2 * p <= size - 1 && up == (p % 2 == 0) && right == NextRight(size, p)
      && Shows(Walk(size, p), stream) && bitIdx == Consumed(|Walk(size, p)|, stream)
    }

    lemma ReachedStart(stream: seq<Byte>)
      requires Valid()
      ensures Reached(0, size - 1, true, 0, stream)
    {
      WalkUnfold(size, 0);
      RightStarts(size);
    }

    lemma ReachedEnd(p: nat, right: int, up: bool, bitIdx: nat, stream: seq<Byte>)
      requires Valid() && Reached(p, right, up, bitIdx, stream) && right <= 0
      ensures Shows(DataCells(size), stream)
    {
      hide Walk, DataCells, Shows, Consumed, NextRight;
      WalkEnds(size, p);
      DataCellsAreWalked(size);
    }

    /** One round of the walk: past the timing column if need be, one pair of columns, and on to the next. */
    method PlaceNext(ghost p: nat, start: nat, up: bool, isReserved: array2<bool>, stream: seq<Byte>, bitIdx: nat)
      returns (next: nat, right: int)
      requires Valid() && isReserved.Length0 == size && isReserved.Length1 == size && isReserved != modules
      requires forall i, j | 0 <= i < size && 0 <= j < size :: isReserved[i, j] == Reserved(size, i, j)
      requires start > 0 && Reached(p, start, up, bitIdx, stream)
      modifies modules
      ensures right < start && Reached(p + 1, right, !up, next, stream)
      ensures forall i, j | 0 <= i < size && 0 <= j < size && Reserved(size, i, j) ::
          modules[i, j] == old(modules[i, j])
    {
      hide Walk, Reserved, StreamBit, Consumed, Shows, NextRight, Right;
      RightAdvances(size, p);
      right := start;
      if right == 6 {
        right := right - 1;
      }
      next := PlacePair(p, right, up, isReserved, stream, bitIdx);
      right := right - 2;
    }

    method PlaceBits(isReserved: array2<bool>, stream: seq<Byte>)
      requires Valid() && isReserved.Length0 == size && isReserved.Length1 == size && isReserved != modules
      requires forall i, j | 0 <= i < size && 0 <= j < size :: isReserved[i, j] == Reserved(size, i, j)
      modifies modules
      ensures Shows(DataCells(size), stream)
      ensures forall i, j | 0 <= i < size && 0 <= j < size && Reserved(size, i, j) ::
          modules[i, j] == old(modules[i, j])
    {
      hide Reserved, Shows, DataCells, Reached;
      ReachedStart(stream);
      var bitIdx, up, right := 0, true, size - 1;
      ghost var p := 0;
      while right > 0
        invariant Reached(p, right, up, bitIdx, stream)
        invariant forall i, j | 0 <= i < size && 0 <= j < size && Reserved(size, i, j) ::
            modules[i, j] == old(modules[i, j])
        decreases right
      {
        bitIdx, right := PlaceNext(p, right, up, isReserved, stream, bitIdx);
        up := !up;
        p := p + 1;
      }
      ReachedEnd(p, right, up, bitIdx, stream);
    }

    /** Writes the fifteen format bits twice. */
    method WriteFormat()
      requires Valid()
      requires forall i, j | 0 <= i < size && 0 <= j < size && Reserved(size, i, j) ::
          modules[i, j] == PatternModule(size, i, j)
      modifies modules
      ensures FixedCells()
      ensures forall i, j | 0 <= i < size && 0 <= j < size && !Reserved(size, i, j) ::
          modules[i, j] == old(modules[i, j])
    {
      for i := 0 to 15
        invariant forall r, c | 0 <= r < size && 0 <= c < size ::
                    modules[r, c] ==
                      if r == 8 && c < 6 && c < i then FormatBit(c)
                      else if r == 8 && c == 7 && 6 < i then FormatBit(6)
                      else if r == 8 && c == 8 && 7 < i then FormatBit(7)
                      else if r == 7 && c == 8 && 8 < i then FormatBit(8)
                      else if r < 6 && c == 8 && 14 - r < i then FormatBit(14 - r)
                      else if c == 8 && r + 8 >= size && size - 1 - r < i then FormatBit(size - 1 - r)
                      else if r == 8 && c + 7 >= size && c + 15 - size < i then FormatBit(c + 15 - size)
                      else old(modules[r, c])
      {
        var bit := Bit(0x5412, 14 - i);
        if i < 6 {
          modules[8, i] := bit;
        } else if i == 6 {
          modules[8, 7] := bit;
        } else if i == 7 {
          modules[8, 8] := bit;
        } else if i == 8 {
          modules[7, 8] := bit;
        } else {
          modules[14 - i, 8] := bit;
        }
        if i < 8 {
          modules[size - 1 - i, 8] := bit;
        } else {
          modules[8, size - 15 + i] := bit;
        }
      }
    }

    method BuildMatrix(t: Gf256.Tables, textBytes: seq<Byte>, v: Version)
      requires Valid() && t.Valid() && v in VERSIONS && size == v.size
      requires forall i, j | 0 <= i < size && 0 <= j < size :: !modules[i, j]
      modifies modules
      ensures Shows(DataCells(size), Codewords(textBytes, v))
      ensures FixedCells()
    {
      hide DataCells, Remainder, Generator, DataCodewords, StreamBit, FixedModule, PatternModule;
      VersionFacts(v);
      var isReserved := new bool[size, size]((i, j) => false);
      DrawFunctionPatterns(v.number, isReserved);
      var dataCodewords := EncodeText(textBytes, v.dataCapacity);
      var ecCodewords := RsCalculateEc(t, dataCodewords, v.ecBytes);
      var finalCodewords := dataCodewords + ecCodewords[..];
      PlaceBits(isReserved, finalCodewords);
      DataCellsExact(size);
      ghost var cells := DataCells(size);
      assert forall k | 0 <= k < |cells| :: cells[k] in cells;
      WriteFormat();
    }

    constructor (t: Gf256.Tables, text: seq<Byte>)
      requires t.Valid()
      ensures Valid() && fresh(modules) && size == PickVersion(|text|).size
      ensures FixedCells()
      ensures ReadBits() == SymbolBits(text, PickVersion(|text|))
      ensures SymbolHolds(size, ReadBits(), text)
    {
      hide DataCells, Codewords, StreamBit, FixedModule, PickVersion, SymbolHolds;
      SymbolHoldsText(text);
      var v := PickVersion(|text|);
      VersionFacts(v);
      size := v.size;
      modules := new bool[v.size, v.size]((i, j) => false);
      new;
      BuildMatrix(t, text, v);
    }
  }
}
