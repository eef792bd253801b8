/** How the text the recogniser returns for each of the 81 cell images is
    reduced to one digit, and how the 81 digits become the grid. */
module Ocr {
  import opened Grid

  predicate IsDigit(ch: char) {
    '0' <= ch <= '9'
  }

  /** The index of the first digit in s is i. */
  predicate FirstDigitAt(s: string, i: int) {
    0 <= i < |s| && IsDigit(s[i]) && forall k :: 0 <= k < i ==> !IsDigit(s[k])
  }

  predicate NoDigit(s: string) {
    forall k :: 0 <= k < |s| ==> !IsDigit(s[k])
  }

  /** s with every character outside '0'..'9' removed, the others kept in order. */
  function DigitsOnly(s: string): (d: string)
    ensures |d| <= |s|
    ensures forall k :: 0 <= k < |d| ==> IsDigit(d[k])
  {
    if s == [] then []
    else (if IsDigit(s[0]) then [s[0]] else []) + DigitsOnly(s[1..])
  }

  /** Stripping leaves nothing exactly when there is no digit to keep. */
  lemma {:induction false} DigitsOnlyEmpty(s: string)
    ensures DigitsOnly(s) == [] <==> NoDigit(s)
  {
    if s != [] {
      DigitsOnlyEmpty(s[1..]);
      assert forall k :: 1 <= k < |s| ==> s[k] == s[1..][k - 1];
    }
  }

  /** After stripping, the first character is the first digit of s. */
  lemma {:induction false} DigitsOnlyHead(s: string, i: int)
    requires FirstDigitAt(s, i)
    ensures DigitsOnly(s) != [] && DigitsOnly(s)[0] == s[i]
  {
    if i > 0 {
      assert FirstDigitAt(s[1..], i - 1);
      DigitsOnlyHead(s[1..], i - 1);
    }
  }

  /** Stripping works character by character: the digits of s + t are the
      digits of s followed by the digits of t, so every digit is kept, in order. */
  lemma {:induction false} DigitsOnlyAppend(s: string, t: string)
    ensures DigitsOnly(s + t) == DigitsOnly(s) + DigitsOnly(t)
  {
    if s == [] {
      assert s + t == t;
    } else {
      assert (s + t)[0] == s[0];
      assert (s + t)[1..] == s[1..] + t;
      DigitsOnlyAppend(s[1..], t);
    }
  }

  /** One character is kept exactly when it is a digit. */
  lemma DigitsOnlyChar(ch: char)
    ensures DigitsOnly([ch]) == if IsDigit(ch) then [ch] else []
  {
    assert [ch][1..] == [];
  }

  /** A string of digits only is left as it is. */
  lemma {:induction false} DigitsOnlyOfDigits(s: string)
    requires forall k :: 0 <= k < |s| ==> IsDigit(s[k])
    ensures DigitsOnly(s) == s
  {
    if s != [] {
      DigitsOnlyOfDigits(s[1..]);
    }
  }

  /** The text of one cell: digits only, "0" when none is left, and only
      the first character kept. */
  function Normalize(raw: string): (cell: string)
    ensures |cell| == 1 && IsDigit(cell[0])
    ensures NoDigit(raw) ==> cell == "0"
    ensures forall i :: FirstDigitAt(raw, i) ==> cell == [raw[i]]
  {
    var digits := DigitsOnly(raw);
    DigitsOnlyEmpty(raw);
    forall i | FirstDigitAt(raw, i)
      ensures digits != [] && digits[0] == raw[i]
    {
      DigitsOnlyHead(raw, i);
    }
    var nonEmpty := if digits == [] then "0" else digits;
    [nonEmpty[0]]
  }

  /** Normalising the text of a cell a second time changes nothing. */
  lemma NormalizeIdempotent(raw: string)
    ensures Normalize(Normalize(raw)) == Normalize(raw)
  {
    assert FirstDigitAt(Normalize(raw), 0);
  }

  /** Integer.parseInt on a one-digit string. */
  function ParseDigit(cell: string): (n: int)
    requires |cell| == 1 && IsDigit(cell[0])
    ensures 0 <= n <= 9
  {
    cell[0] as int - '0' as int
  }

  /** The one-character text of a digit 0..9. */
  function DigitText(n: int): (cell: string)
    requires 0 <= n <= 9
    ensures |cell| == 1 && IsDigit(cell[0])
  {
    [('0' as int + n) as char]
  }

  lemma ParseDigitRoundTrip(n: int, cell: string)
    requires 0 <= n <= 9 && |cell| == 1 && IsDigit(cell[0])
    ensures ParseDigit(DigitText(n)) == n
    ensures DigitText(ParseDigit(cell)) == cell
  {
  }

  /** The value a cell's recognised text puts into the grid. */
  function CellValue(raw: string): (n: int)
    ensures 0 <= n <= 9
    ensures NoDigit(raw) ==> n == 0
    ensures forall i :: FirstDigitAt(raw, i) ==> n == raw[i] as int - '0' as int
  {
    ParseDigit(Normalize(raw))
  }

  /** The grid holding the 81 recognised cells in row-major order. */
  function Ingest(raw: seq<string>): (b: Board)
    requires |raw| == 81
    ensures IsBoard(b)
    ensures forall i, j :: IsCell(i, j) ==> 0 <= b[i][j] <= 9
  {
    seq(9, i requires 0 <= i < 9 =>
      seq(9, j requires 0 <= j < 9 => CellValue(raw[Index(i, j)])))
  }

  /** List element k lands in row k / 9, column k % 9. */
  lemma IngestRowMajor(raw: seq<string>, k: int)
    requires |raw| == 81 && 0 <= k < 81
    ensures IsCell(k / 9, k % 9)
    ensures Ingest(raw)[k / 9][k % 9] == CellValue(raw[k])
  {
    assert Index(k / 9, k % 9) == k;
  }
}
