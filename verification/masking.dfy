/** Data masks and the format information that names the mask. */
module Masking {
  import opened Bch
  import opened BitStream
  import opened Template

  /** The eight mask conditions. */
  predicate Masked(mask: nat, row: nat, col: nat)
    requires mask < 8
  {
    match mask
    case 0 => (row + col) % 2 == 0
    case 1 => row % 2 == 0
    case 2 => col % 3 == 0
    case 3 => (row + col) % 3 == 0
    case 4 => (row / 2 + col / 3) % 2 == 0
    case 5 => row * col % 2 + row * col % 3 == 0
    case 6 => (row * col % 2 + row * col % 3) % 2 == 0
    case _ => ((row + col) % 2 + row * col % 3) % 2 == 0
  }

  /** A data module flips where the mask condition holds; a function module stays. */
  function MaskedModule(mask: nat, row: nat, col: nat, value: Module): Module
    requires mask < 8
  {
    if value < 2 && Masked(mask, row, col) then 1 - value else value
  }

  /** Masking twice with the same mask restores every module, and masking leaves function modules alone. */
  lemma MaskInvolution(mask: nat, row: nat, col: nat, value: Module)
    requires mask < 8
    ensures MaskedModule(mask, row, col, MaskedModule(mask, row, col, value)) == value
    ensures value >= 2 ==> MaskedModule(mask, row, col, value) == value
    ensures value < 2 ==> MaskedModule(mask, row, col, value) < 2
  {}

  method ApplyMask(m: array2<Module>, mask: nat)
    requires mask < 8
    modifies m
    ensures forall r: nat, c: nat | r < m.Length0 && c < m.Length1 :: m[r, c] == MaskedModule(mask, r, c, old(m[r, c]))
  {
    hide Masked;
    for row := 0 to m.Length0
      invariant forall r: nat, c: nat | r < m.Length0 && c < m.Length1 ::
        m[r, c] == if r < row then MaskedModule(mask, r, c, old(m[r, c])) else old(m[r, c])
    {
      for col := 0 to m.Length1
        invariant forall r: nat, c: nat | r < m.Length0 && c < m.Length1 ::
          m[r, c] == if r < row || (r == row && c < col) then MaskedModule(mask, r, c, old(m[r, c])) else old(m[r, c])
      {
        var value := m[row, col];
        if value < 2 && Masked(mask, row, col) {
          m[row, col] := 1 - value;
        }
      }
    }
  }

  // --- Format information -------------------------------------------------------------

  /** The format bit that a module of either copy carries, or -1. */
  function FormatIndex(size: nat, r: nat, c: nat): int {
    if c == 8 && r < 6 then r
    else if c == 8 && r == 7 then 6
    else if c == 8 && r == 8 then 7
    else if r == 8 && c == 7 then 8
    else if r == 8 && c < 6 then 14 - c
    else if r == 8 && c >= size - 8 then size - 1 - c
    else if c == 8 && r >= size - 7 then r - (size - 15)
    else -1
  }

  /** The modules that `PlaceFormatBits` writes. */
  predicate OnFormatBits(size: nat, r: nat, c: nat) {
    FormatIndex(size, r, c) >= 0 || (r == size - 8 && c == 8)
  }

  function FormatModule(size: nat, mask: nat, r: nat, c: nat): Module {
    if r == size - 8 && c == 8 then 3 else Pattern(BitAt(FormatBits(mask), if FormatIndex(size, r, c) >= 0 then FormatIndex(size, r, c) else 0))
  }

  /** Writes one format bit into both copies; the coordinates skip the timing modules at index 6. */
  method PlaceFormatBit(m: array2<Module>, index: nat, value: Module)
    requires m.Length0 == m.Length1 >= 21 && index < 15
    modifies m
    ensures forall r: nat, c: nat | r < m.Length0 && c < m.Length1 ::
      m[r, c] == if FormatIndex(m.Length0, r, c) == index then value else old(m[r, c])
  {
    var size := m.Length0;
    var primary := [0, 1, 2, 3, 4, 5, 7, 8];
    if index < 8 {
      m[8, size - 1 - index] := value;
      m[primary[index], 8] := value;
    } else {
      m[8, primary[14 - index]] := value;
      m[size - 15 + index, 8] := value;
    }
  }

  method PlaceFormatBits(m: array2<Module>, mask: nat)
    requires m.Length0 == m.Length1 >= 21 && mask < 8
    modifies m
    ensures forall r: nat, c: nat | r < m.Length0 && c < m.Length1 ::
      m[r, c] == if OnFormatBits(m.Length0, r, c) then FormatModule(m.Length0, mask, r, c) else old(m[r, c])
  {
    hide FormatBits, BitAt;
    var bits := FormatBits(mask);
    var size := m.Length0;
    for index := 0 to 15
      invariant forall r: nat, c: nat | r < size && c < size ::
        m[r, c] == if 0 <= FormatIndex(size, r, c) < index then Pattern(BitAt(bits, FormatIndex(size, r, c))) else old(m[r, c])
    {
      PlaceFormatBit(m, index, Pattern(BitAt(bits, index)));
    }
    m[size - 8, 8] := 3;
  }

  /** Format information only ever lands on modules the template reserves. */
  lemma FormatBitsReserved(version: nat, r: nat, c: nat)
    requires 1 <= version <= 10 && r < SizeOf(version) && c < SizeOf(version)
    requires OnFormatBits(SizeOf(version), r, c)
    ensures TemplateAt(version, r, c) != 0
  {
    hide FinderModule, AlignmentModule, VersionModule;
  }
}
