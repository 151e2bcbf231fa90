/** The text dump of a data unit (`dump_str`): "EMPTY" for an empty unit,
    otherwise one line per 16 bytes of at most the first 64 KiB, each line
    made of a newline, the line's offset as four lower-case hex digits and a
    space, then for every byte two hex digits and a space, three spaces for
    every byte the last line lacks, and finally the bytes as characters, with
    '.' for a byte below 32 or above 127. */
module Dump {
  import opened Bytes
  import opened DataUnit

  /** At most this many bytes are shown. */
  const MaxDumpBytes: nat := 65536

  const HexDigits: string := "0123456789abcdef"

  /** The value of a lower-case hex digit, -1 for any other character. */
  function HexValue(c: char): int
  {
    if '0' <= c <= '9' then c as int - '0' as int
    else if 'a' <= c <= 'f' then c as int - 'a' as int + 10
    else -1
  }

  lemma HexDigitValue(n: nat)
    requires n < 16
    ensures HexValue(HexDigits[n]) == n
  {
  }

  /** The `n` low hex digits of `v`, most significant first, lower case:
      `{:0nx}` for values below 16^n. */
  function Hex(v: nat, n: nat): (r: string)
    ensures |r| == n
  {
    if n == 0 then [] else Hex(v / 16, n - 1) + [HexDigits[v % 16]]
  }

  /** The digits' values, most significant first. */
  function HexDigitsValue(s: string): int
  {
    if |s| == 0 then 0 else 16 * HexDigitsValue(s[..|s| - 1]) + HexValue(s[|s| - 1])
  }

  /** Reading the digits of a value that fits in `n` digits gives it back. */
  lemma {:induction false} HexValueOfHex(v: nat, n: nat)
    requires v < Pow2(4 * n)
    ensures HexDigitsValue(Hex(v, n)) == v
  {
    if n > 0 {
      var s := Hex(v, n);
      assert s[..n - 1] == Hex(v / 16, n - 1);
      Pow2Add(4, 4 * (n - 1));
      assert Pow2(4) == 16;
      assert v / 16 < Pow2(4 * (n - 1));
      HexValueOfHex(v / 16, n - 1);
      HexDigitValue(v % 16);
    }
  }

  /** `{:02x}`: a byte as two lower-case hex digits. */
  function Hex2(b: Byte): (r: string)
    ensures |r| == 2
  {
    Hex(b, 2)
  }

  /** `{:04x}`. */
  function Hex4(i: nat): (r: string)
    ensures |r| == 4
  {
    Hex(i, 4)
  }

  /** Reading the two hex digits gives the byte back. */
  lemma Hex2Value(b: Byte)
    ensures HexDigitsValue(Hex2(b)) == b
  {
    assert Pow2(8) == 256;
    HexValueOfHex(b, 2);
  }

  /** Reading the four hex digits gives an offset below 0x10000 back. */
  lemma Hex4Value(i: nat)
    requires i < 0x1_0000
    ensures HexDigitsValue(Hex4(i)) == i
  {
    Pow2Add(8, 8);
    assert Pow2(8) == 256;
    HexValueOfHex(i, 4);
  }


  /** The character shown for a byte in the right-hand column. */
  function AsciiChar(b: Byte): (c: char)
    ensures c == '.' || c as int == b
  {
    if b < 32 || b > 127 then '.' else b as char
  }

  /** Hex pairs, each followed by a space, of bytes `i .. i + k - 1`. */
  function HexField(data: seq<Byte>, i: nat, k: nat): (r: string)
    requires i + k <= |data|
    ensures |r| == 3 * k
  {
    if k == 0 then "" else HexField(data, i, k - 1) + Hex2(data[i + k - 1]) + " "
  }

  /** The `j`-th pair of the hex field shows byte `i + j`. */
  lemma {:induction false} HexFieldAt(data: seq<Byte>, i: nat, k: nat, j: nat)
    requires i + k <= |data| && j < k
    ensures HexField(data, i, k)[3 * j .. 3 * j + 2] == Hex2(data[i + j])
    ensures HexField(data, i, k)[3 * j + 2] == ' '
  {
    var prev := HexField(data, i, k - 1);
    assert HexField(data, i, k) == prev + Hex2(data[i + k - 1]) + " ";
    if j < k - 1 {
      HexFieldAt(data, i, k - 1, j);
    }
  }

  /** Three spaces for each of `n` missing bytes. */
  function Padding(n: nat): (r: string)
    ensures |r| == 3 * n
  {
    seq(3 * n, _ => ' ')
  }

  function AsciiField(data: seq<Byte>, i: nat, k: nat): (r: string)
    requires i + k <= |data|
    ensures |r| == k
  {
    seq(k, j requires 0 <= j < k => AsciiChar(data[i + j]))
  }

  /** Bytes shown on the line that starts at `i` when `length` bytes are shown. */
  function LineBytes(i: nat, length: nat): (k: nat)
    requires i < length
    ensures 1 <= k <= 16 && i + k <= length
    ensures k == 16 || i + k == length
  {
    Min(16, length - i)
  }

  /** The lines written one after another. */
  function Join(lines: seq<string>): string
  {
    if |lines| == 0 then "" else lines[0] + Join(lines[1..])
  }

  /** Six pieces written one after another. */
  lemma JoinSix(a: string, b: string, c: string, d: string, e: string, f: string)
    ensures Join([a, b, c, d, e, f]) == a + b + c + d + e + f
  {
    assert Join([f]) == f + Join([]);
    assert Join([e, f]) == e + Join([f]);
    assert Join([d, e, f]) == d + Join([e, f]);
    assert Join([c, d, e, f]) == c + Join([d, e, f]);
    assert Join([b, c, d, e, f]) == b + Join([c, d, e, f]);
    assert Join([a, b, c, d, e, f]) == a + Join([b, c, d, e, f]);
  }

  /** One line of the dump; the line for offset `i` shows bytes `i ..` up to
      16 of them or up to `length`. */
  function Line(data: seq<Byte>, i: nat, length: nat): (r: string)
    requires i < length <= |data| && length <= MaxDumpBytes
    ensures |r| == 54 + LineBytes(i, length)
  {
    var k := LineBytes(i, length);
    var parts := ["\n", Hex4(i), " ", HexField(data, i, k), Padding(16 - k), AsciiField(data, i, k)];
    JoinSix(parts[0], parts[1], parts[2], parts[3], parts[4], parts[5]);
    Join(parts)
  }

  /** A line is its head (newline, offset, space), the hex field, the
      padding and the character field. */
  lemma LineSplit(data: seq<Byte>, i: nat, length: nat)
    requires i < length <= |data| && length <= MaxDumpBytes
    ensures var k := LineBytes(i, length);
      Line(data, i, length)
      == ("\n" + Hex4(i) + " ") + (HexField(data, i, k) + (Padding(16 - k) + AsciiField(data, i, k)))
  {
    var k := LineBytes(i, length);
    var parts := ["\n", Hex4(i), " ", HexField(data, i, k), Padding(16 - k), AsciiField(data, i, k)];
    JoinSix(parts[0], parts[1], parts[2], parts[3], parts[4], parts[5]);
  }

  /** Character positions in a text made of four pieces. */
  lemma PieceChars(a: string, b: string, c: string, d: string, n: nat, m: nat)
    requires n < |b| && m < |d|
    ensures (a + (b + (c + d)))[|a| + n] == b[n]
    ensures (a + (b + (c + d)))[|a| + |b| + |c| + m] == d[m]
  {
  }

  /** A line starts with a newline and the four-digit offset. */
  lemma LineHead(data: seq<Byte>, i: nat, length: nat)
    requires i < length <= |data| && length <= MaxDumpBytes
    ensures Line(data, i, length)[0] == '\n' && Line(data, i, length)[1..5] == Hex4(i)
  {
    var k := LineBytes(i, length);
    var head := "\n" + Hex4(i) + " ";
    LineSplit(data, i, length);
    assert (head + (HexField(data, i, k) + (Padding(16 - k) + AsciiField(data, i, k))))[1..5] == Hex4(i);
  }

  /** A line shows byte `i + j` as two hex digits at columns `6 + 3 j` and
      `7 + 3 j`. */
  lemma LineHexAt(data: seq<Byte>, i: nat, length: nat, j: nat)
    requires i < length <= |data| && length <= MaxDumpBytes && j < LineBytes(i, length)
    ensures Line(data, i, length)[6 + 3 * j] == Hex2(data[i + j])[0]
    ensures Line(data, i, length)[7 + 3 * j] == Hex2(data[i + j])[1]
  {
    var k := LineBytes(i, length);
    var head := "\n" + Hex4(i) + " ";
    var hex := HexField(data, i, k);
    var pad := Padding(16 - k);
    var asc := AsciiField(data, i, k);
    LineSplit(data, i, length);
    HexFieldAt(data, i, k, j);
    assert hex[3 * j] == Hex2(data[i + j])[0] && hex[3 * j + 1] == Hex2(data[i + j])[1];
    PieceChars(head, hex, pad, asc, 3 * j, j);
    PieceChars(head, hex, pad, asc, 3 * j + 1, j);
  }

  /** A line shows byte `i + j` as a character at column `54 + j`. */
  lemma LineCharAt(data: seq<Byte>, i: nat, length: nat, j: nat)
    requires i < length <= |data| && length <= MaxDumpBytes && j < LineBytes(i, length)
    ensures Line(data, i, length)[54 + j] == AsciiChar(data[i + j])
  {
    var k := LineBytes(i, length);
    var head := "\n" + Hex4(i) + " ";
    var hex := HexField(data, i, k);
    var pad := Padding(16 - k);
    var asc := AsciiField(data, i, k);
    LineSplit(data, i, length);
    PieceChars(head, hex, pad, asc, 0, j);
  }

  /** Character `n` of the third of four pieces. */
  lemma PieceThird(a: string, b: string, c: string, d: string, n: nat)
    requires n < |c|
    ensures (a + (b + (c + d)))[|a| + |b| + n] == c[n]
  {
  }

  /** A line holding `k` bytes is blank from the end of its hex field,
      column `6 + 3 k`, up to column 53, where the characters start: three
      spaces for each of the `16 - k` missing bytes. */
  lemma LinePaddingAt(data: seq<Byte>, i: nat, length: nat, c: nat)
    requires i < length <= |data| && length <= MaxDumpBytes
    requires 6 + 3 * LineBytes(i, length) <= c < 54
    ensures Line(data, i, length)[c] == ' '
  {
    var k := LineBytes(i, length);
    var head := "\n" + Hex4(i) + " ";
    var hex := HexField(data, i, k);
    var pad := Padding(16 - k);
    var asc := AsciiField(data, i, k);
    LineSplit(data, i, length);
    PieceThird(head, hex, pad, asc, c - 6 - 3 * k);
  }

  /** Number of lines for `length` bytes: one per started group of 16. */
  function LineCount(length: nat): (n: nat)
    ensures forall m: nat :: m < n <==> 16 * m < length
  {
    (length + 15) / 16
  }

  /** The lines for offsets `0, 16, 32, ...` below `length`. */
  function LineList(data: seq<Byte>, length: nat): (r: seq<string>)
    requires length <= |data| && length <= MaxDumpBytes
  {
    seq(LineCount(length), m requires 0 <= m < LineCount(length) => Line(data, 16 * m, length))
  }

  /** When the first `m` lines are full (70 characters), line `m` starts
      `70 m` characters into the joined text. */
  lemma {:induction false} JoinSkip(lines: seq<string>, m: nat)
    requires m <= |lines|
    requires forall j :: 0 <= j < m ==> |lines[j]| == 70
    ensures |Join(lines)| >= 70 * m
    ensures Join(lines)[70 * m ..] == Join(lines[m..])
  {
    if m > 0 {
      assert Join(lines) == lines[0] + Join(lines[1..]);
      JoinSkip(lines[1..], m - 1);
      assert lines[1..][m - 1..] == lines[m..];
    }
  }

  /** When every line but the last is full, the joined text has 70
      characters per full line plus the last line. */
  lemma {:induction false} JoinLength(lines: seq<string>)
    requires |lines| > 0
    requires forall j :: 0 <= j < |lines| - 1 ==> |lines[j]| == 70
    ensures |Join(lines)| == 70 * (|lines| - 1) + |lines[|lines| - 1]|
  {
    assert Join(lines) == lines[0] + Join(lines[1..]);
    if |lines| > 1 {
      JoinLength(lines[1..]);
    } else {
      assert Join(lines[1..]) == "";
    }
  }

  /** Number of bytes `dump_str` shows. */
  function ShownBytes(du: DU): nat
  {
    Min(|du.data|, MaxDumpBytes)
  }

  /** `dump_str`. */
  function DumpStr(du: DU): (r: string)
    ensures |du.data| == 0 <==> r == "EMPTY"
  {
    if |du.data| == 0 then "EMPTY"
    else
      var lines := LineList(du.data, ShownBytes(du));
      assert lines[0] == Line(du.data, 0, ShownBytes(du));
      LineHead(du.data, 0, ShownBytes(du));
      assert Join(lines) == lines[0] + Join(lines[1..]);
      Join(lines)
  }

  /** All lines of the dump but the last are full. */
  lemma LinesFull(data: seq<Byte>, length: nat, j: nat)
    requires length <= |data| && length <= MaxDumpBytes
    requires j + 1 < |LineList(data, length)|
    ensures |LineList(data, length)[j]| == 70
  {
    assert 16 * (j + 1) < length;
  }

  /** Character `c` of line `m` of the dump, the line for offset
      `i == 16 m`, is character `pos == 70 m + c` of the dump. */
  lemma DumpLineChar(du: DU, m: nat, i: nat, c: nat, pos: nat)
    requires i == 16 * m && i < ShownBytes(du)
    requires c < |Line(du.data, i, ShownBytes(du))| && pos == 70 * m + c
    ensures |DumpStr(du)| > pos
    ensures DumpStr(du)[pos] == Line(du.data, i, ShownBytes(du))[c]
  {
    var length := ShownBytes(du);
    var lines := LineList(du.data, length);
    assert m < |lines|;
    forall k | 0 <= k < m
      ensures |lines[k]| == 70
    {
      LinesFull(du.data, length, k);
    }
    JoinSkip(lines, m);
    var all := Join(lines);
    assert DumpStr(du) == all;
    var line := lines[m];
    assert all[70 * m ..] == line + Join(lines[m + 1..]) by {
      assert lines[m..][0] == line;
      assert lines[m..][1..] == lines[m + 1..];
      assert Join(lines[m..]) == lines[m..][0] + Join(lines[m..][1..]);
    }
    assert all[pos] == all[70 * m ..][c];
  }

  /** Byte `j` of line `m` appears as two hex digits at columns `6 + 3 j`
      and `7 + 3 j` of that line and as a character at column `54 + j`;
      every line before it is 70 characters long. */
  lemma DumpShowsHexHigh(du: DU, m: nat, j: nat)
    requires j < 16 && 16 * m + j < ShownBytes(du)
    ensures |DumpStr(du)| > 70 * m + 6 + 3 * j
    ensures DumpStr(du)[70 * m + 6 + 3 * j] == Hex2(du.data[16 * m + j])[0]
  {
    var length := ShownBytes(du);
    var i, pos := 16 * m, 70 * m + 6 + 3 * j;
    assert j < LineBytes(i, length);
    LineHexAt(du.data, i, length, j);
    DumpLineChar(du, m, i, 6 + 3 * j, pos);
  }

  lemma DumpShowsHexLow(du: DU, m: nat, j: nat)
    requires j < 16 && 16 * m + j < ShownBytes(du)
    ensures |DumpStr(du)| > 70 * m + 7 + 3 * j
    ensures DumpStr(du)[70 * m + 7 + 3 * j] == Hex2(du.data[16 * m + j])[1]
  {
    var length := ShownBytes(du);
    var i, pos := 16 * m, 70 * m + 7 + 3 * j;
    assert j < LineBytes(i, length);
    LineHexAt(du.data, i, length, j);
    DumpLineChar(du, m, i, 7 + 3 * j, pos);
  }

  lemma DumpShowsChar(du: DU, m: nat, j: nat)
    requires j < 16 && 16 * m + j < ShownBytes(du)
    ensures |DumpStr(du)| > 70 * m + 54 + j
    ensures DumpStr(du)[70 * m + 54 + j] == AsciiChar(du.data[16 * m + j])
  {
    var length := ShownBytes(du);
    var i, pos := 16 * m, 70 * m + 54 + j;
    assert j < LineBytes(i, length);
    var b := du.data[i + j];
    LineCharAt(du.data, i, length, j);
    DumpLineChar(du, m, i, 54 + j, pos);
    assert DumpStr(du)[pos] == AsciiChar(b);
  }

  /** On line `m` of the dump, holding `k` bytes, columns `6 + 3 k` to 53
      are spaces; on every line but the last, `k` is 16 and there are none. */
  lemma DumpShowsPadding(du: DU, m: nat, c: nat)
    requires 16 * m < ShownBytes(du)
    requires 6 + 3 * LineBytes(16 * m, ShownBytes(du)) <= c < 54
    ensures |DumpStr(du)| > 70 * m + c
    ensures DumpStr(du)[70 * m + c] == ' '
  {
    var i, pos := 16 * m, 70 * m + c;
    LinePaddingAt(du.data, i, ShownBytes(du), c);
    DumpLineChar(du, m, i, c, pos);
  }

  /** The dump shows each of the first 64 KiB of bytes at a fixed place:
      line `idx / 16`, hex digits at columns `6 + 3 * (idx % 16)` and
      `7 + 3 * (idx % 16)`, character at column `54 + idx % 16`. */
  lemma DumpShowsByte(du: DU, idx: nat)
    requires idx < ShownBytes(du)
    ensures |DumpStr(du)| > 70 * (idx / 16) + 54 + idx % 16
    ensures DumpStr(du)[70 * (idx / 16) + 6 + 3 * (idx % 16)] == Hex2(du.data[idx])[0]
    ensures DumpStr(du)[70 * (idx / 16) + 7 + 3 * (idx % 16)] == Hex2(du.data[idx])[1]
    ensures DumpStr(du)[70 * (idx / 16) + 54 + idx % 16] == AsciiChar(du.data[idx])
  {
    var m, j := idx / 16, idx % 16;
    DumpShowsHexHigh(du, m, j);
    DumpShowsHexLow(du, m, j);
    DumpShowsChar(du, m, j);
  }

  /** The dump has one line of 54 characters plus one character per byte
      shown, for every started group of 16 bytes. */
  lemma DumpLength(du: DU)
    requires |du.data| > 0
    ensures |DumpStr(du)| == 54 * ((ShownBytes(du) + 15) / 16) + ShownBytes(du)
  {
    var length := ShownBytes(du);
    var lines := LineList(du.data, length);
    var n := |lines|;
    assert n == (length + 15) / 16;
    forall k | 0 <= k < n - 1
      ensures |lines[k]| == 70
    {
      LinesFull(du.data, length, k);
    }
    JoinLength(lines);
    assert DumpStr(du) == Join(lines);
    assert |lines[n - 1]| == 54 + (length - 16 * (n - 1));
  }

  /** Lines showing the same bytes are equal. */
  lemma LineAgree(a: seq<Byte>, b: seq<Byte>, i: nat, length: nat)
    requires i < length && length <= |a| && length <= |b| && length <= MaxDumpBytes
    requires a[..length] == b[..length]
    ensures Line(a, i, length) == Line(b, i, length)
  {
    var k := LineBytes(i, length);
    assert a[i..i + k] == b[i..i + k] by {
      assert a[i..i + k] == a[..length][i..i + k];
      assert b[i..i + k] == b[..length][i..i + k];
    }
    HexFieldAgree(a, b, i, k);
    assert AsciiField(a, i, k) == AsciiField(b, i, k) by {
      forall j | 0 <= j < k
        ensures AsciiField(a, i, k)[j] == AsciiField(b, i, k)[j]
      {
        assert b[i + j] == b[i..i + k][j];
        assert a[i + j] == a[i..i + k][j];
      }
    }
  }

  lemma {:induction false} HexFieldAgree(a: seq<Byte>, b: seq<Byte>, i: nat, k: nat)
    requires i + k <= |a| && i + k <= |b| && a[i..i + k] == b[i..i + k]
    ensures HexField(a, i, k) == HexField(b, i, k)
  {
    if k > 0 {
      assert a[i..i + k - 1] == a[i..i + k][..k - 1];
      assert b[i..i + k - 1] == b[i..i + k][..k - 1];
      HexFieldAgree(a, b, i, k - 1);
      assert a[i + k - 1] == a[i..i + k][k - 1];
    }
  }

  /** Bytes after the first 64 KiB do not change the dump. */
  lemma DumpIgnoresTail(a: DU, b: DU)
    requires |a.data| >= MaxDumpBytes && |b.data| >= MaxDumpBytes
    requires a.data[..MaxDumpBytes] == b.data[..MaxDumpBytes]
    ensures DumpStr(a) == DumpStr(b)
  {
    assert ShownBytes(a) == ShownBytes(b) == MaxDumpBytes;
    var la := LineList(a.data, MaxDumpBytes);
    var lb := LineList(b.data, MaxDumpBytes);
    forall m | 0 <= m < |la|
      ensures la[m] == lb[m]
    {
      LineAgree(a.data, b.data, 16 * m, MaxDumpBytes);
    }
    assert la == lb;
    assert DumpStr(a) == Join(la);
    assert DumpStr(b) == Join(lb);
  }

  /** Known answers from the library's unit tests. */
  /** Up to 16 bytes make a dump of a single line. */
  lemma DumpSingleLine(du: DU)
    requires 0 < |du.data| <= 16
    ensures DumpStr(du) == Line(du.data, 0, |du.data|)
  {
    var length := ShownBytes(du);
    assert length == |du.data|;
    var lines := LineList(du.data, length);
    assert |lines| == 1;
    assert DumpStr(du) == Join(lines) == lines[0] + Join(lines[1..]);
    assert Join(lines[1..]) == "";
  }

  lemma DumpKnownAnswers()
    ensures DumpStr(New()) == "EMPTY"
    ensures DumpStr(NewAlloc(10))
      == "\n0000 00 00 00 00 00 00 00 00 00 00                   .........."
  {
    DumpSingleLine(NewAlloc(10));
    ZeroLine();
  }

  lemma ZeroLine()
    ensures Line(NewAlloc(10).data, 0, 10)
      == "\n0000 00 00 00 00 00 00 00 00 00 00                   .........."
  {
    var z := NewAlloc(10).data;
    assert LineBytes(0, 10) == 10;
    ZeroHexDigits();
    ZeroHexField();
    assert AsciiField(z, 0, 10) == "..........";
    assert Padding(6) == "                  ";
    JoinSix("\n", Hex4(0), " ", HexField(z, 0, 10), Padding(6), AsciiField(z, 0, 10));
    ZeroLineText();
  }

  lemma ZeroHexDigits()
    ensures Hex2(0) == "00" && Hex4(0) == "0000"
  {
    assert HexDigits[0] == '0';
    assert Hex(0, 1) == "0";
    assert Hex(0, 2) == "00";
    assert Hex(0, 3) == "000";
  }

  lemma ZeroHexField()
    ensures HexField(NewAlloc(10).data, 0, 10) == "00 00 00 00 00 00 00 00 00 00 "
  {
    var z := NewAlloc(10).data;
    ZeroHexFieldHalf();
    ZeroHexDigits();
    assert HexField(z, 0, 6) == "00 00 00 00 00 00 ";
    assert HexField(z, 0, 7) == "00 00 00 00 00 00 00 ";
    assert HexField(z, 0, 8) == "00 00 00 00 00 00 00 00 ";
    assert HexField(z, 0, 9) == "00 00 00 00 00 00 00 00 00 ";
  }

  lemma ZeroHexFieldHalf()
    ensures HexField(NewAlloc(10).data, 0, 5) == "00 00 00 00 00 "
  {
    var z := NewAlloc(10).data;
    ZeroHexDigits();
    assert HexField(z, 0, 1) == "00 ";
    assert HexField(z, 0, 2) == "00 00 ";
    assert HexField(z, 0, 3) == "00 00 00 ";
    assert HexField(z, 0, 4) == "00 00 00 00 ";
  }

  /** The pieces of the known-answer line, written one after another. */
  lemma ZeroLineText()
    ensures "\n" + "0000" + " " + "00 00 00 00 00 00 00 00 00 00 " + "                  " + ".........."
         == "\n0000 00 00 00 00 00 00 00 00 00 00                   .........."
  {
    ZeroLineFront();
    ZeroLineBack();
  }

  lemma ZeroLineFront()
    ensures "\n" + "0000" + " " + "00 00 00 00 00 00 00 00 00 00 " == "\n0000 00 00 00 00 00 00 00 00 00 00 "
  {
    assert "\n" + "0000" + " " == "\n0000 ";
  }

  lemma ZeroLineBack()
    ensures "\n0000 00 00 00 00 00 00 00 00 00 00 " + "                  " + ".........."
         == "\n0000 00 00 00 00 00 00 00 00 00 00                   .........."
  {
    assert "\n0000 00 00 00 00 00 00 00 00 00 00 " + "                  "
        == "\n0000 00 00 00 00 00 00 00 00 00 00                   ";
  }
}
