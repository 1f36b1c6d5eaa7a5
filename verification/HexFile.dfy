/** Program memory printed as Intel HEX records and read back. */
module HexFiles {
  import opened Options

  type byte = x: int | 0 <= x < 256

  function Digit(n: nat): char
    requires n < 16
  {
    if n < 10 then '0' + n as char else 'A' + (n - 10) as char
  }

  /** `%.2X`. */
  function Hex(b: byte): (s: string)
    ensures |s| == 2
  {
    [Digit(b / 16), Digit(b % 16)]
  }

  /** `isxdigit`. */
  predicate IsDigit(c: char) {
    '0' <= c <= '9' || 'A' <= c <= 'F' || 'a' <= c <= 'f'
  }

  function DigitValue(c: char): (n: nat)
    requires IsDigit(c)
    ensures n < 16
  {
    if '0' <= c <= '9' then (c - '0') as int
    else if 'A' <= c <= 'F' then (c - 'A') as int + 10
    else (c - 'a') as int + 10
  }

  /** `strtol` of two digits. */
  function HexValue(c: char, d: char): (b: nat)
    requires IsDigit(c) && IsDigit(d)
    ensures b < 256
  {
    16 * DigitValue(c) + DigitValue(d)
  }

  lemma HexUndone(b: byte)
    ensures IsDigit(Hex(b)[0]) && IsDigit(Hex(b)[1]) && HexValue(Hex(b)[0], Hex(b)[1]) == b
  {
    DigitUndone(b / 16);
    DigitUndone(b % 16);
  }

  lemma DigitUndone(n: nat)
    requires n < 16
    ensures IsDigit(Digit(n)) && DigitValue(Digit(n)) == n
  {
  }

  function Hexes(bs: seq<byte>): (s: string)
    ensures |s| == 2 * |bs|
  {
    if bs == [] then "" else Hexes(bs[..|bs| - 1]) + Hex(bs[|bs| - 1])
  }

  function Sum(s: seq<byte>): nat {
    if s == [] then 0 else Sum(s[..|s| - 1]) + s[|s| - 1]
  }

  /** What makes a sum a multiple of 256. */
  function Complement(n: nat): byte {
    (256 - n % 256) % 256
  }

  datatype Record = Record(kind: byte, address: nat, data: seq<byte>)

  predicate IsRecord(r: Record) {
    |r.data| < 256 && r.address < 65536
  }

  /** The bytes of a record, without the checksum. */
  function Payload(r: Record): seq<byte>
    requires IsRecord(r)
  {
    [|r.data|, r.address / 256, r.address % 256, r.kind] + r.data
  }

  /** A record as a line. */
  function LineOf(r: Record): string
    requires IsRecord(r)
  {
    ":" + Hexes(Payload(r)) + Hex(Complement(Sum(Payload(r))))
  }

  // -------------------------------------------------------------------------
  // Reading a line
  // -------------------------------------------------------------------------

  /** The byte written at position i of a line. */
  function ByteAt(s: string, i: nat): (b: nat)
    requires i + 1 < |s| && IsDigit(s[i]) && IsDigit(s[i + 1])
    ensures b < 256
  {
    HexValue(s[i], s[i + 1])
  }

  /** How many characters a line must have, by its length field. */
  function Needed(s: string): nat
    requires |s| >= 3 && IsDigit(s[1]) && IsDigit(s[2])
  {
    2 * ByteAt(s, 1) + 11
  }

  predicate WellFormed(s: string) {
    && |s| >= 3 && s[0] == ':' && IsDigit(s[1]) && IsDigit(s[2])
    && |s| >= Needed(s)
    && forall i :: 3 <= i < Needed(s) ==> IsDigit(s[i])
  }

  /** All bytes of a line, from the length to the checksum. */
  function BytesOf(s: string): (bs: seq<byte>)
    requires WellFormed(s)
    ensures |bs| == ByteAt(s, 1) + 5
  {
    seq(ByteAt(s, 1) + 5, i requires 0 <= i < ByteAt(s, 1) + 5 => ByteAt(s, 1 + 2 * i))
  }

  /** What `hex_raw_read` makes of a line: nothing, unless it is well formed and sums up to zero. */
  function Parsed(s: string): Option<Record> {
    if !WellFormed(s) then None
    else
      var bs := BytesOf(s);
      if Complement(Sum(bs[..|bs| - 1])) != bs[|bs| - 1] then None
      else Some(Record(bs[3], 256 * bs[1] as int + bs[2] as int, bs[4..|bs| - 1]))
  }

  /** `hex_raw_read`, on a line of the file. */
  method HexRawRead(s: string) returns (r: Option<Record>)
    ensures r == Parsed(s)
    ensures forall q :: r == Some(q) <==> IsRecord(q) && LineOf(q) <= Raised(s)
  {
    forall q
      ensures Parsed(s) == Some(q) <==> IsRecord(q) && LineOf(q) <= Raised(s)
    {
      AcceptedLines(s, q);
    }
    if |s| < 1 || s[0] != ':' {
      return None;
    }
    if |s| < 3 || !IsDigit(s[1]) || !IsDigit(s[2]) {
      return None;
    }
    var datlen := HexValue(s[1], s[2]);
    if |s| < 2 * datlen + 11 {
      return None;
    }
    for i := 3 to 2 * datlen + 11
      invariant forall k :: 3 <= k < i ==> IsDigit(s[k])
    {
      if !IsDigit(s[i]) {
        return None;
      }
    }
    r := ReadFields(s, datlen);
  }

  /** The second half of `hex_raw_read`. */
  method ReadFields(s: string, datlen: nat) returns (r: Option<Record>)
    requires WellFormed(s) && datlen == ByteAt(s, 1)
    ensures r == Parsed(s)
  {
    hide Sum, BytesOf, Parsed, DigitValue, IsDigit;
    ghost var bs := BytesOf(s);
    FieldsAre(s);
    ParsedIs(s);
    var high, low, kind := HexValue(s[3], s[4]), HexValue(s[5], s[6]), HexValue(s[7], s[8]);
    var check := (datlen + high + low + kind) % 256;
    var data, sum := ReadData(s, datlen, check);
    var checksum := HexValue(s[2 * datlen + 9], s[2 * datlen + 10]);
    if (256 - sum) % 256 != checksum {
      return None;
    }
    r := Some(Record(kind, 256 * high + low, data));
  }

  lemma ParsedIs(s: string)
    requires WellFormed(s)
    ensures var bs, n := BytesOf(s), ByteAt(s, 1);
            Parsed(s) == if Complement(Sum(bs[..4 + n])) != bs[4 + n] then None
                         else Some(Record(bs[3], 256 * bs[1] as int + bs[2] as int, bs[4..4 + n]))
  {
  }

  /** The loop over the data bytes. */
  method ReadData(s: string, datlen: nat, start: nat) returns (data: seq<byte>, check: nat)
    requires WellFormed(s) && datlen == ByteAt(s, 1)
    requires start == (datlen + ByteAt(s, 3) + ByteAt(s, 5) + ByteAt(s, 7)) % 256
    ensures data == BytesOf(s)[4..4 + datlen] && check == Sum(BytesOf(s)[..4 + datlen]) % 256
  {
    hide WellFormed, Needed, IsDigit, DigitValue, ByteAt, HexValue, Sum;
    ghost var bs := BytesOf(s);
    check, data := start, [];
    FieldsAre(s);
    FirstFour(bs);
    for i := 0 to datlen
      invariant check < 256 && data == bs[4..4 + i] && check == Sum(bs[..4 + i]) % 256
    {
      ByteIs(s, i);
      var b := HexValue(s[9 + 2 * i], s[10 + 2 * i]);
      SumNext(bs, 4 + i);
      data := data + [b];
      check := (check + b) % 256;
    }
  }

  lemma FieldsAre(s: string)
    requires WellFormed(s)
    ensures BytesOf(s)[0] == ByteAt(s, 1) && BytesOf(s)[1] == ByteAt(s, 3) && BytesOf(s)[2] == ByteAt(s, 5) && BytesOf(s)[3] == ByteAt(s, 7)
    ensures BytesOf(s)[4 + ByteAt(s, 1)] == ByteAt(s, 2 * ByteAt(s, 1) + 9)
  {
  }

  lemma ByteIs(s: string, i: nat)
    requires WellFormed(s) && i < ByteAt(s, 1)
    ensures 10 + 2 * i < |s| && IsDigit(s[9 + 2 * i]) && IsDigit(s[10 + 2 * i])
    ensures HexValue(s[9 + 2 * i], s[10 + 2 * i]) == BytesOf(s)[4 + i]
  {
    assert BytesOf(s)[4 + i] == ByteAt(s, 1 + 2 * (4 + i));
  }

  lemma SumNext(bs: seq<byte>, i: nat)
    requires i < |bs|
    ensures Sum(bs[..i + 1]) == Sum(bs[..i]) + bs[i]
  {
    assert bs[..i + 1][..i] == bs[..i];
  }

  lemma FirstFour(bs: seq<byte>)
    requires |bs| >= 4
    ensures Sum(bs[..4]) == bs[0] as int + bs[1] as int + bs[2] as int + bs[3] as int
  {
    SumNext(bs, 0);
    SumNext(bs, 1);
    SumNext(bs, 2);
    SumNext(bs, 3);
  }

  lemma {:induction false} HexesAt(bs: seq<byte>, i: nat)
    requires i < |bs|
    ensures Hexes(bs)[2 * i] == Hex(bs[i])[0] && Hexes(bs)[2 * i + 1] == Hex(bs[i])[1]
    decreases |bs|
  {
    if i < |bs| - 1 { HexesAt(bs[..|bs| - 1], i); }
  }

  /** A printed line is read back. */
  lemma LineUndone(r: Record)
    requires IsRecord(r)
    ensures Parsed(LineOf(r)) == Some(r)
  {
    hide Hexes, Hex, Sum, IsDigit, HexValue;
    var p, s := Payload(r), LineOf(r);
    var all := p + [Complement(Sum(p))];
    LineBytes(r, all);
    LineIsWellFormed(s, all);
    assert BytesOf(s) == all;
    assert all[..|all| - 1] == p && all[4..|all| - 1] == r.data;
    assert 256 * (r.address / 256) + r.address % 256 == r.address;
  }

  /** Each byte of the record stands in its place. */
  lemma LineBytes(r: Record, all: seq<byte>)
    requires IsRecord(r) && all == Payload(r) + [Complement(Sum(Payload(r)))]
    ensures |LineOf(r)| == 2 * |all| + 1
    ensures forall i :: 0 <= i < |all| ==> Stands(LineOf(r), all, i)
  {
    var p, s := Payload(r), LineOf(r);
    assert all[..|p|] == p;
    assert s == ":" + Hexes(all);
    forall i | 0 <= i < |all|
      ensures Stands(s, all, i)
    {
      HexesAt(all, i);
      HexUndone(all[i]);
    }
  }

  predicate Stands(s: string, all: seq<byte>, i: nat)
    requires i < |all|
  {
    2 + 2 * i < |s| && IsDigit(s[1 + 2 * i]) && IsDigit(s[2 + 2 * i]) && HexValue(s[1 + 2 * i], s[2 + 2 * i]) == all[i]
  }

  lemma LineIsWellFormed(s: string, all: seq<byte>)
    requires |all| >= 5 && |s| >= 2 * |all| + 1 && s[0] == ':' && all[0] as int == |all| - 5
    requires forall i :: 0 <= i < |all| ==> Stands(s, all, i)
    ensures WellFormed(s) && BytesOf(s) == all
  {
    hide IsDigit, HexValue;
    assert Stands(s, all, 0);
    assert ByteAt(s, 1) == |all| - 5;
    forall i | 3 <= i < Needed(s)
      ensures IsDigit(s[i])
    {
      var k := (i - 1) / 2;
      assert Stands(s, all, k);
      assert i == 1 + 2 * k || i == 2 + 2 * k;
    }
    forall i | 0 <= i < |all|
      ensures ByteAt(s, 1 + 2 * i) == all[i]
    {
      assert Stands(s, all, i);
    }
  }

  // -------------------------------------------------------------------------
  // Which lines are accepted
  // -------------------------------------------------------------------------

  function Upper(c: char): char {
    if 'a' <= c <= 'f' then 'A' + (c - 'a') else c
  }

  function Raised(s: string): (t: string)
    ensures |t| == |s|
  {
    seq(|s|, i requires 0 <= i < |s| => Upper(s[i]))
  }

  lemma RaisedDigit(c: char)
    ensures IsDigit(Upper(c)) <==> IsDigit(c)
    ensures IsDigit(c) ==> DigitValue(Upper(c)) == DigitValue(c) && Digit(DigitValue(c)) == Upper(c)
    ensures Upper(c) == ':' <==> c == ':'
  {
  }

  /** Digits may be of either case. */
  lemma CaseDoesNotMatter(s: string)
    ensures Parsed(Raised(s)) == Parsed(s)
  {
    hide IsDigit, Upper, DigitValue;
    var t := Raised(s);
    forall i | 0 <= i < |s|
      ensures IsDigit(t[i]) <==> IsDigit(s[i])
      ensures IsDigit(s[i]) ==> DigitValue(t[i]) == DigitValue(s[i])
      ensures t[i] == ':' <==> s[i] == ':'
    {
      RaisedDigit(s[i]);
    }
    if WellFormed(s) {
      assert BytesOf(t) == BytesOf(s);
    }
  }

  /** A line is accepted, as the record r, exactly when it begins with r as it is printed, up to the
      case of the digits. */
  lemma AcceptedLines(s: string, r: Record)
    ensures Parsed(s) == Some(r) <==> IsRecord(r) && LineOf(r) <= Raised(s)
  {
    hide Parsed, Raised, LineOf;
    CaseDoesNotMatter(s);
    if IsRecord(r) && LineOf(r) <= Raised(s) {
      LongerLine(Raised(s), r);
    }
    if Parsed(s) == Some(r) {
      ReadAsPrinted(s, r);
    }
  }

  /** Whatever follows a printed line does not matter. */
  lemma LongerLine(t: string, r: Record)
    requires IsRecord(r) && LineOf(r) <= t
    ensures Parsed(t) == Some(r)
  {
    hide Hexes, Hex, Sum, IsDigit, HexValue;
    var p := Payload(r);
    var all := p + [Complement(Sum(p))];
    LineBytes(r, all);
    assert t[0] == LineOf(r)[0];
    forall i | 0 <= i < |all|
      ensures Stands(t, all, i)
    {
      assert Stands(LineOf(r), all, i);
    }
    LineIsWellFormed(t, all);
    assert all[..|all| - 1] == p && all[4..|all| - 1] == r.data;
    assert 256 * (r.address / 256) + r.address % 256 == r.address;
  }

  lemma ReadAsPrinted(s: string, r: Record)
    requires Parsed(s) == Some(r)
    ensures IsRecord(r) && LineOf(r) <= Raised(s)
  {
    hide Hexes, Hex, Sum, IsDigit, HexValue, Upper, DigitValue;
    var bs := BytesOf(s);
    var p := bs[..|bs| - 1];
    FieldsAre(s);
    assert p == Payload(r);
    assert bs == p + [Complement(Sum(p))];
    assert LineOf(r) == ":" + Hexes(bs) by { assert bs[..|p|] == p; LastHex(bs); }
    forall k | 0 <= k < |Hexes(bs)|
      ensures Hexes(bs)[k] == Upper(s[k + 1])
    {
      HexesAt(bs, k / 2);
      DigitsAt(s, k / 2);
    }
    assert Upper(s[0]) == ':' by { RaisedDigit(s[0]); }
  }

  lemma {:induction false} LastHex(bs: seq<byte>)
    requires bs != []
    ensures Hexes(bs) == Hexes(bs[..|bs| - 1]) + Hex(bs[|bs| - 1])
  {
  }

  /** The two digits of a byte, raised, are the byte as it is printed. */
  lemma DigitsAt(s: string, i: nat)
    requires WellFormed(s) && i < ByteAt(s, 1) + 5
    ensures 2 * i + 2 < |s| && Hex(BytesOf(s)[i]) == [Upper(s[2 * i + 1]), Upper(s[2 * i + 2])]
  {
    hide IsDigit, DigitValue;
    var c, d := s[2 * i + 1], s[2 * i + 2];
    RaisedDigit(c);
    RaisedDigit(d);
    assert BytesOf(s)[i] == 16 * DigitValue(c) + DigitValue(d);
  }

  /** One wrong digit behind the length makes the checksum wrong. */
  lemma DamageIsNoticed(s: string, i: nat, c: char)
    requires Parsed(s).Some? && 3 <= i < Needed(s) && IsDigit(c) && DigitValue(c) != DigitValue(s[i])
    ensures Parsed(s[i := c]).None?
  {
    var t := s[i := c];
    OneByteChanged(s, i, c);
    AcceptedSum(s);
    if Parsed(t).Some? {
      hide WellFormed, Needed, IsDigit, DigitValue, ByteAt, BytesOf, Sum, Parsed;
      AcceptedSum(t);
      var bs, cs, k := BytesOf(s), BytesOf(t), (i - 1) / 2;
      SumChanged(bs, k, cs[k]);
      SameByte(Sum(bs), Sum(cs), bs[k], cs[k]);
      assert false;
    }
  }

  /** The bytes of an accepted line, checksum and all, sum up to zero. */
  lemma AcceptedSum(s: string)
    requires Parsed(s).Some?
    ensures WellFormed(s) && Sum(BytesOf(s)) % 256 == 0
  {
    hide Sum, BytesOf;
    SumIsZero(BytesOf(s));
  }

  lemma SameByte(x: nat, y: nat, b: byte, c: byte)
    requires x % 256 == 0 && y % 256 == 0 && y + b == x + c
    ensures b == c
  {
    var p, q := x / 256, y / 256;
    assert 256 * (q - p) == c - b;
  }

  lemma OneByteChanged(s: string, i: nat, c: char)
    requires WellFormed(s) && 3 <= i < Needed(s) && IsDigit(c) && DigitValue(c) != DigitValue(s[i])
    ensures WellFormed(s[i := c])
    ensures var bs, cs, k := BytesOf(s), BytesOf(s[i := c]), (i - 1) / 2;
            |cs| == |bs| > k && cs == bs[k := cs[k]] && cs[k] != bs[k]
  {
    hide IsDigit, DigitValue;
    var t, k := s[i := c], (i - 1) / 2;
    assert i == 2 * k + 1 || i == 2 * k + 2;
    assert Needed(t) == Needed(s) && WellFormed(t);
    var bs, cs := BytesOf(s), BytesOf(t);
    forall j | 0 <= j < |bs| && j != k
      ensures cs[j] == bs[j]
    {
      assert t[2 * j + 1] == s[2 * j + 1] && t[2 * j + 2] == s[2 * j + 2];
    }
    TwoDigits(DigitValue(s[2 * k + 1]), DigitValue(s[2 * k + 2]), DigitValue(t[2 * k + 1]), DigitValue(t[2 * k + 2]));
  }

  lemma TwoDigits(a: nat, b: nat, c: nat, d: nat)
    requires a < 16 && b < 16 && c < 16 && d < 16
    ensures 16 * a + b == 16 * c + d <==> a == c && b == d
  {
  }

  lemma {:induction false} SumIsZero(bs: seq<byte>)
    requires bs != []
    ensures Complement(Sum(bs[..|bs| - 1])) == bs[|bs| - 1] <==> Sum(bs) % 256 == 0
  {
    hide Sum;
    SumNext(bs, |bs| - 1);
    assert bs[..|bs|] == bs;
    ComplementIs(Sum(bs[..|bs| - 1]), bs[|bs| - 1]);
  }

  lemma ComplementIs(x: nat, b: byte)
    ensures Complement(x) == b <==> (x + b) % 256 == 0
  {
    var q, r := x / 256, x % 256;
    assert x + b == 256 * q + (r + b);
    if (x + b) % 256 == 0 {
      var p := (x + b) / 256;
      assert x + b == 256 * p && r + b == 256 * (p - q);
      assert p - q == 0 || p - q == 1;
    }
  }

  lemma {:induction false} SumChanged(bs: seq<byte>, i: nat, b: byte)
    requires i < |bs|
    ensures Sum(bs[i := b]) + bs[i] == Sum(bs) + b
    decreases |bs|
  {
    var n := |bs| - 1;
    if i == n {
      assert bs[i := b][..n] == bs[..n];
    } else {
      assert bs[i := b][..n] == bs[..n][i := b];
      SumChanged(bs[..n], i, b);
    }
  }

  // -------------------------------------------------------------------------
  // Printing memory
  // -------------------------------------------------------------------------

  function Min(a: nat, b: nat): nat {
    if a < b then a else b
  }

  /** Does the row have to be printed? The last address of the range does not count. */
  predicate Programmed(memory: seq<byte>, addr: nat) {
    exists a :: addr <= a < addr + 16 && a + 1 < |memory| && memory[a] != 0xff
  }

  /** The row of at most 16 bytes at an address. */
  function RowAt(memory: seq<byte>, addr: nat): (r: Record)
    requires addr < |memory| <= 65536
    ensures IsRecord(r)
  {
    Record(0, addr, memory[addr..Min(addr + 16, |memory|)])
  }

  /** The rows from an address on. */
  function Rows(memory: seq<byte>, addr: nat): seq<string>
    requires |memory| <= 65536
    decreases |memory| - addr
  {
    if addr >= |memory| then []
    else (if Programmed(memory, addr) then [LineOf(RowAt(memory, addr))] else []) + Rows(memory, addr + 16)
  }

  /** The record that announces the upper half of the addresses, with its bytes the way write_range
      orders them. */
  function Announcement(base: nat): (r: Record)
    ensures IsRecord(r)
  {
    Record(4, 0, [base / 0x1_0000 % 256, base / 0x100_0000 % 256])
  }

  /** The file for a memory that begins at address 0. */
  function Printed(memory: seq<byte>): seq<string>
    requires |memory| <= 65536
  {
    [LineOf(Announcement(0))] + Rows(memory, 0)
  }

  lemma {:induction false} HexesSum(a: seq<byte>, b: seq<byte>)
    ensures Hexes(a + b) == Hexes(a) + Hexes(b) && Sum(a + b) == Sum(a) + Sum(b)
    decreases |b|
  {
    if b == [] {
      assert a + b == a;
    } else {
      assert (a + b)[..|a + b| - 1] == a + b[..|b| - 1];
      HexesSum(a, b[..|b| - 1]);
    }
  }

  lemma NoHexes()
    ensures Hexes([]) == "" && Sum([]) == 0
  {
  }

  /** The data loop of `write_range`: the bytes are printed one by one while they are summed up. */
  method PrintBytes(data: seq<byte>, start: nat) returns (text: string, checksum: nat)
    ensures text == Hexes(data) && checksum == (start + Sum(data)) % 256
  {
    hide Hex, Hexes, Sum;
    text, checksum := "", start % 256;
    NoHexes();
    assert data[..0] == [];
    for i := 0 to |data|
      invariant text == Hexes(data[..i]) && checksum == (start + Sum(data[..i])) % 256
    {
      HexesNext(data, i);
      text := text + Hex(data[i]);
      checksum := (checksum + data[i]) % 256;
    }
    assert data[..|data|] == data;
  }

  /** One row of `write_range`. */
  method WriteRow(memory: seq<byte>, addr: nat) returns (line: string)
    requires addr < |memory| <= 65536
    ensures line == LineOf(RowAt(memory, addr))
  {
    hide Hexes, Hex, Sum;
    var top := |memory| - 1;
    var n := if top - addr + 1 >= 16 then 16 else top - addr + 1;
    ghost var head: seq<byte> := [n, addr / 256, addr % 256, 0];
    ghost var data := memory[addr..addr + n];
    line := Hex(n) + Hex(addr / 256) + Hex(addr % 256) + Hex(0);
    var checksum := n + addr / 256 + addr % 256;
    HeadOfRow(head);
    var text, sum := PrintBytes(memory[addr..addr + n], checksum);
    HexesSum(head, data);
    line := ":" + (line + text) + Hex((256 - sum) % 256);
    assert Payload(RowAt(memory, addr)) == head + data;
  }

  lemma {:induction false} HeadOfRow(p: seq<byte>)
    requires |p| == 4
    ensures Hexes(p) == Hex(p[0]) + Hex(p[1]) + Hex(p[2]) + Hex(p[3])
    ensures Sum(p) == p[0] as int + p[1] as int + p[2] as int + p[3] as int
  {
    hide Hex;
    assert Hexes(p[..0]) == "";
    FirstFour(p);
    HexesNext(p, 0);
    HexesNext(p, 1);
    HexesNext(p, 2);
    HexesNext(p, 3);
    assert p[..4] == p;
  }

  lemma HexesNext(p: seq<byte>, i: nat)
    requires i < |p|
    ensures Hexes(p[..i + 1]) == Hexes(p[..i]) + Hex(p[i]) && Sum(p[..i + 1]) == Sum(p[..i]) + p[i]
  {
    assert p[..i + 1][..i] == p[..i];
  }

  lemma {:induction false} FirstLine()
    ensures LineOf(Announcement(0)) == ":020000040000FA"
  {
    hide Hexes, Sum, Hex;
    var p, head: seq<byte> := Payload(Announcement(0)), [2, 0, 0, 4];
    assert p == [2, 0, 0, 4, 0, 0];
    HeadOfRow(head);
    assert p[..4] == head && p[..6] == p;
    HexesNext(p, 4);
    HexesNext(p, 5);
    assert Sum(p) == 6;
    SomeDigits();
  }

  lemma SomeDigits()
    ensures Hex(0) == "00" && Hex(2) == "02" && Hex(4) == "04" && Hex(Complement(6)) == "FA"
  {
  }

  /** A row is printed exactly when one of its bytes, the one at the top address aside, is not 0xff. */
  lemma {:induction false} PrintedRows(memory: seq<byte>, addr: nat)
    requires addr < |memory| <= 65536 && addr % 16 == 0
    ensures LineOf(RowAt(memory, addr)) in Printed(memory)
            <==> exists a :: addr <= a < addr + 16 && a + 1 < |memory| && memory[a] != 0xff
  {
    hide LineOf, Parsed, RowAt, Rows;
    RowKind(memory, addr);
    LineUndone(RowAt(memory, addr));
    LineUndone(Announcement(0));
    RowsContain(memory, 0, addr);
    assert Printed(memory)[1..] == Rows(memory, 0);
    assert LineOf(RowAt(memory, addr)) in Printed(memory) <==> LineOf(RowAt(memory, addr)) in Printed(memory)[1..];
  }

  lemma RowKind(memory: seq<byte>, addr: nat)
    requires addr < |memory| <= 65536
    ensures RowAt(memory, addr).kind == 0 && RowAt(memory, addr).address == addr && Announcement(0).kind == 4
  {
  }

  lemma {:induction false} RowsContain(memory: seq<byte>, start: nat, addr: nat)
    requires addr < |memory| <= 65536 && start % 16 == 0 && addr % 16 == 0
    ensures LineOf(RowAt(memory, addr)) in Rows(memory, start) <==> start <= addr && Programmed(memory, addr)
    decreases |memory| - start
  {
    hide LineOf, Parsed, RowAt, Programmed;
    if start < |memory| {
      RowsContain(memory, start + 16, addr);
      RowKind(memory, addr);
      RowKind(memory, start);
      LineUndone(RowAt(memory, addr));
      LineUndone(RowAt(memory, start));
      assert start < addr ==> start + 16 <= addr;
    }
  }

  /** `write_range` for a range that begins at address 0. */
  method WriteRange(memory: seq<byte>) returns (lines: seq<string>)
    requires 1 <= |memory| <= 65536
    ensures lines == Printed(memory)
    ensures lines != [] && lines[0] == ":020000040000FA"
  {
    FirstLine();
    hide LineOf;
    lines := [LineOf(Announcement(0))];
    var addr := 0;
    while addr < |memory|
      invariant lines + Rows(memory, addr) == Printed(memory)
      decreases |memory| - addr
    {
      ghost var before := lines;
      var doit := false;
      for i := 0 to 16
        invariant doit <==> exists a :: addr <= a < addr + i && a + 1 < |memory| && memory[a] != 0xff
      {
        if i + addr < |memory| - 1 && memory[addr + i] != 0xff {
          doit := true;
        }
      }
      if doit {
        var line := WriteRow(memory, addr);
        lines := lines + [line];
      }
      addr := addr + 16;
    }
  }

  // -------------------------------------------------------------------------
  // Loading
  // -------------------------------------------------------------------------

  /** The base address of the file and the cells of a range that begins at address 0: as many as the
      top address says, which is one too few, and 0xff at first. */
  datatype Image = Image(base: nat, cells: seq<byte>)

  function Blank(top: nat): Image {
    Image(0, seq(top, i => 0xff))
  }

  /** Does `mi_modify_patch` take data for the top address, which lies inside the range but has no
      cell? */
  predicate Exceeds(size: nat, addr: nat, data: seq<byte>) {
    data != [] && addr + |data| == size + 1
  }

  /** `mi_modify_patch`, as far as there are cells. */
  function Patched(cells: seq<byte>, addr: nat, data: seq<byte>): (r: seq<byte>)
    ensures |r| == |cells|
  {
    if addr + |data| > |cells| + 1 then cells
    else seq(|cells|, a requires 0 <= a < |cells| => if addr <= a < addr + |data| then data[a - addr] else cells[a])
  }

  /** One record: data goes to its place if that begins inside the range, an address record sets the
      base. */
  function Taken(img: Image, r: Record): Image {
    if r.kind == 0 then
      (if img.base + r.address <= |img.cells| then Image(img.base, Patched(img.cells, img.base + r.address, r.data)) else img)
    else if r.kind == 2 && |r.data| >= 2 then Image(0x1000 * r.data[0] as int + 0x10 * r.data[1] as int, img.cells)
    else if r.kind == 4 && |r.data| >= 2 then Image(0x100_0000 * r.data[0] as int + 0x1_0000 * r.data[1] as int, img.cells)
    else img
  }

  /** The record loop stops at the first line that is not a record. */
  function Loaded(img: Image, lines: seq<string>): Image
    decreases |lines|
  {
    if lines == [] then img
    else
      match Parsed(lines[0])
      case None => img
      case Some(r) => Loaded(Taken(img, r), lines[1..])
  }

  /** Is any record beyond the cells? */
  predicate AnyExceeds(img: Image, lines: seq<string>)
    decreases |lines|
  {
    lines != [] &&
    match Parsed(lines[0])
    case None => false
    case Some(r) =>
      || (r.kind == 0 && img.base + r.address <= |img.cells| && Exceeds(|img.cells|, img.base + r.address, r.data))
      || AnyExceeds(Taken(img, r), lines[1..])
  }

  /** `mi_modify_patch`, in place. A byte for the top address goes past the cells; the model notes
      that and leaves the memory there alone. */
  method ModifyPatch(cells: array<byte>, addr: nat, data: seq<byte>) returns (beyond: bool)
    modifies cells
    ensures cells[..] == Patched(old(cells[..]), addr, data)
    ensures beyond <==> Exceeds(cells.Length, addr, data)
  {
    beyond := false;
    if addr + |data| > cells.Length + 1 {
      return;
    }
    for i := 0 to |data|
      invariant forall a :: 0 <= a < cells.Length ==> cells[a] == if addr <= a < addr + i then data[a - addr] else old(cells[a])
      invariant beyond <==> i > 0 && addr + i == cells.Length + 1
    {
      if addr + i < cells.Length {
        cells[addr + i] := data[i];
      } else {
        beyond := true;
      }
    }
  }

  /** What `hex_read` and the record loop do with one record. */
  method TakeRecord(cells: array<byte>, base: nat, r: Record) returns (base': nat, beyond: bool)
    modifies cells
    ensures Image(base', cells[..]) == Taken(Image(base, old(cells[..])), r)
    ensures beyond <==> r.kind == 0 && base + r.address <= cells.Length && Exceeds(cells.Length, base + r.address, r.data)
  {
    base', beyond := base, false;
    if r.kind == 0 {
      var addr := r.address + base;
      if addr <= cells.Length {
        beyond := ModifyPatch(cells, addr, r.data);
      }
    } else if r.kind == 2 && |r.data| >= 2 {
      base' := 0x1000 * r.data[0] as int + 0x10 * r.data[1] as int;
    } else if r.kind == 4 && |r.data| >= 2 {
      base' := 0x100_0000 * r.data[0] as int + 0x1_0000 * r.data[1] as int;
    }
  }

  /** The record loop of `mi_load_hexfile`, for the program range. */
  method LoadHexFile(lines: seq<string>, top: nat) returns (cells: array<byte>, beyond: bool)
    ensures fresh(cells) && cells[..] == Loaded(Blank(top), lines).cells
    ensures beyond <==> AnyExceeds(Blank(top), lines)
  {
    hide Parsed, Taken, Exceeds;
    beyond := false;
    cells := new byte[top](i => 0xff);
    var base: nat := 0;
    assert cells[..] == Blank(top).cells;
    assert lines[0..] == lines;
    for i := 0 to |lines|
      invariant Loaded(Image(base, cells[..]), lines[i..]) == Loaded(Blank(top), lines)
      invariant (beyond || AnyExceeds(Image(base, cells[..]), lines[i..])) <==> AnyExceeds(Blank(top), lines)
    {
      assert lines[i..][1..] == lines[i + 1..];
      var r := HexRawRead(lines[i]);
      if r.None? {
        return;
      }
      var b;
      base, b := TakeRecord(cells, base, r.value);
      beyond := beyond || b;
    }
  }

  // -------------------------------------------------------------------------
  // The round trip
  // -------------------------------------------------------------------------

  /** The cells agree with memory below an address and are blank from there on. */
  ghost predicate LoadedUpto(memory: seq<byte>, cells: seq<byte>, addr: nat) {
    |cells| + 1 == |memory| && forall a :: 0 <= a < |cells| ==> cells[a] == if a < addr then memory[a] else 0xff
  }

  lemma {:induction false} RowsLoaded(memory: seq<byte>, cells: seq<byte>, addr: nat)
    requires 1 <= |memory| <= 65536 && LoadedUpto(memory, cells, addr)
    ensures Loaded(Image(0, cells), Rows(memory, addr)).cells == memory[..|memory| - 1]
    decreases |memory| - addr
  {
    hide LineOf, Parsed, Patched, Programmed, LoadedUpto;
    if addr >= |memory| {
      EverythingLoaded(memory, cells, addr);
    } else if !Programmed(memory, addr) {
      assert [] + Rows(memory, addr + 16) == Rows(memory, addr + 16);
      RowSkipped(memory, cells, addr);
      RowsLoaded(memory, cells, addr + 16);
    } else {
      var r, rest := RowAt(memory, addr), Rows(memory, addr + 16);
      LineUndone(r);
      assert ([LineOf(r)] + rest)[1..] == rest;
      RowWritten(memory, cells, addr);
      RowsLoaded(memory, Patched(cells, addr, r.data), addr + 16);
    }
  }

  lemma EverythingLoaded(memory: seq<byte>, cells: seq<byte>, addr: nat)
    requires |memory| <= addr && LoadedUpto(memory, cells, addr)
    ensures cells == memory[..|memory| - 1]
  {
  }

  lemma RowSkipped(memory: seq<byte>, cells: seq<byte>, addr: nat)
    requires LoadedUpto(memory, cells, addr) && !Programmed(memory, addr)
    ensures LoadedUpto(memory, cells, addr + 16)
  {
  }

  lemma RowWritten(memory: seq<byte>, cells: seq<byte>, addr: nat)
    requires addr < |memory| <= 65536 && LoadedUpto(memory, cells, addr)
    ensures addr <= |cells| && LoadedUpto(memory, Patched(cells, addr, RowAt(memory, addr).data), addr + 16)
  {
  }

  /** Every program memory, whatever its top address, is read back as it was printed, at all
      addresses below the top one. */
  lemma RoundTrip(memory: seq<byte>, top: nat)
    requires |memory| == top + 1 <= 65536
    ensures Loaded(Blank(top), Printed(memory)).cells == memory[..top]
  {
    hide LineOf, Parsed, Rows;
    LineUndone(Announcement(0));
    assert Printed(memory)[1..] == Rows(memory, 0);
    assert Taken(Blank(top), Announcement(0)) == Image(0, Blank(top).cells);
    RowsLoaded(memory, Blank(top).cells, 0);
  }

  /** The last row of a memory. */
  function LastRow(memory: seq<byte>): nat
    requires memory != []
  {
    |memory| - 1 - (|memory| - 1) % 16
  }

  lemma RowPlace(memory: seq<byte>, addr: nat)
    requires memory != [] && addr % 16 == 0
    ensures addr <= LastRow(memory) <==> addr < |memory|
    ensures addr < |memory| ==> (addr + 16 <= LastRow(memory) <==> addr != LastRow(memory))
    ensures addr < |memory| <= 65536 ==>
              var r := RowAt(memory, addr);
              r.kind == 0 && r.address == addr && (Exceeds(|memory| - 1, addr, r.data) <==> addr == LastRow(memory))
  {
  }

  lemma {:induction false} FirstExceeds(img: Image, r: Record, rest: seq<string>)
    requires IsRecord(r) && Parsed(LineOf(r)) == Some(r) && r.kind == 0 && img.base == 0 && r.address <= |img.cells|
    ensures AnyExceeds(img, [LineOf(r)] + rest) <==>
            Exceeds(|img.cells|, r.address, r.data) || AnyExceeds(Image(0, Patched(img.cells, r.address, r.data)), rest)
  {
    hide LineOf, Parsed, Patched, Exceeds;
    assert ([LineOf(r)] + rest)[1..] == rest;
  }

  /** Printed rows are read back within the cells exactly when the last row is not among them. */
  lemma {:induction false} RowsExceed(memory: seq<byte>, cells: seq<byte>, addr: nat)
    requires 1 <= |memory| <= 65536 && |cells| + 1 == |memory| && addr % 16 == 0
    ensures AnyExceeds(Image(0, cells), Rows(memory, addr)) <==> addr <= LastRow(memory) && Programmed(memory, LastRow(memory))
    decreases |memory| - addr
  {
    hide LineOf, Parsed, Patched, Programmed, LastRow, Exceeds, RowAt;
    RowPlace(memory, addr);
    if addr < |memory| {
      var rest := Rows(memory, addr + 16);
      if !Programmed(memory, addr) {
        assert [] + rest == rest;
        RowsExceed(memory, cells, addr + 16);
      } else {
        var r := RowAt(memory, addr);
        LineUndone(r);
        FirstExceeds(Image(0, cells), r, rest);
        RowsExceed(memory, Patched(cells, addr, r.data), addr + 16);
      }
    }
  }

  /** Reading back a printed memory writes past the cells exactly when its last row was printed. */
  lemma ReadBackExceeds(memory: seq<byte>, top: nat)
    requires |memory| == top + 1 <= 65536
    ensures AnyExceeds(Blank(top), Printed(memory)) <==> Programmed(memory, LastRow(memory))
  {
    hide LineOf, Parsed, Rows, Programmed;
    LineUndone(Announcement(0));
    assert Printed(memory)[1..] == Rows(memory, 0);
    assert Taken(Blank(top), Announcement(0)) == Image(0, Blank(top).cells);
    RowsExceed(memory, Blank(top).cells, 0);
  }

  /** From the first line on that is not a record nothing is read. */
  lemma {:induction false} StopsAtBadLine(img: Image, lines: seq<string>, bad: string, rest: seq<string>)
    requires Parsed(bad).None?
    ensures Loaded(img, lines + [bad] + rest) == Loaded(img, lines)
    decreases |lines|
  {
    hide Parsed, Taken;
    var all := lines + [bad] + rest;
    if lines == [] {
      assert all[0] == bad;
    } else {
      assert all[1..] == lines[1..] + [bad] + rest;
      if Parsed(lines[0]).Some? { StopsAtBadLine(Taken(img, Parsed(lines[0]).value), lines[1..], bad, rest); }
    }
  }

  /** Of the cells only those from an address on hold the data, if it ends inside the range. */
  ghost predicate Put(cells: seq<byte>, top: nat, at: nat, data: seq<byte>) {
    && |cells| == top
    && forall a :: 0 <= a < top ==> cells[a] == if at + |data| <= top + 1 && at <= a < at + |data| then data[a - at] else 0xff
  }

  /** Data goes to 16 times the segment, or to 65536 times the upper half, that was announced last, plus
      its own address, or to that if nothing was announced. */
  lemma {:induction false} BaseIsAdded(top: nat, kind: byte, high: byte, low: byte, r: Record)
    requires (kind == 2 || kind == 4) && IsRecord(r) && r.kind == 0
    ensures var cells := Loaded(Blank(top), [LineOf(Record(kind, 0, [high, low])), LineOf(r)]).cells;
            var at := (if kind == 2 then 16 else 65536) * (256 * high + low) + r.address;
            Put(cells, top, at, r.data)
    ensures Put(Loaded(Blank(top), [LineOf(r)]).cells, top, r.address, r.data)
  {
    hide Parsed, LineOf;
    var first := Record(kind, 0, [high, low]);
    LineUndone(first);
    LineUndone(r);
    var lines := [LineOf(first), LineOf(r)];
    assert lines[1..] == [LineOf(r)] && lines[1..][1..] == [];
    assert [LineOf(r)][1..] == [];
    assert Loaded(Blank(top), [LineOf(r)]) == Loaded(Taken(Blank(top), r), []);
    var img := Taken(Blank(top), first);
    assert Loaded(Blank(top), lines) == Loaded(img, [LineOf(r)]);
    assert Loaded(img, [LineOf(r)]) == Loaded(Taken(img, r), []);
  }

  /** The announcement of an upper half is understood exactly when its two bytes are the same, because
      they are written in the opposite order. */
  lemma AnnouncementOrder(base: nat, img: Image)
    requires base < 0x1_0000_0000
    ensures Parsed(LineOf(Announcement(base))) == Some(Announcement(base))
    ensures Taken(img, Announcement(base)).base == base - base % 0x1_0000
            <==> base / 0x1_0000 % 256 == base / 0x100_0000
  {
    hide LineOf, Parsed;
    LineUndone(Announcement(base));
    var low, high := base / 0x1_0000 % 256, base / 0x100_0000;
    Halves(base, low, high);
    assert Announcement(base).data == [low, high];
  }

  lemma Halves(base: nat, low: nat, high: nat)
    requires base < 0x1_0000_0000 && low == base / 0x1_0000 % 256 && high == base / 0x100_0000
    ensures high < 256 && base / 0x100_0000 % 256 == high
    ensures base - base % 0x1_0000 == 0x100_0000 * high + 0x1_0000 * low
  {
    assert base / 0x1_0000 / 256 == base / 0x100_0000;
    assert base / 0x1_0000 == 256 * high + low;
  }
}
