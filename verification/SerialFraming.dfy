/** The serial framing: a length, an escaped body and a checksum behind a synchronisation byte. */
module SerialFraming {
  import opened Options

  type byte = b: int | 0 <= b < 256

  const ESCAPE: byte := 0xFE
  const SYNC: byte := 0xFF

  // -------------------------------------------------------------------------
  // Sending
  // -------------------------------------------------------------------------

  /** The body on the wire: bytes from ESCAPE on get an ESCAPE before them. */
  function Escaped(data: seq<byte>): seq<byte> {
    if data == [] then []
    else Escaped(data[..|data| - 1]) + EscapedByte(data[|data| - 1])
  }

  function EscapedByte(b: byte): seq<byte> {
    if b < ESCAPE then [b] else [ESCAPE, b]
  }

  function Sum(s: seq<byte>): nat {
    if s == [] then 0 else Sum(s[..|s| - 1]) + s[|s| - 1]
  }

  /** A whole frame. */
  function Frame(data: seq<byte>): seq<byte>
    requires |Escaped(data)| <= 253
  {
    [SYNC, |Escaped(data)|] + Escaped(data) + [Sum(Escaped(data)) % 128]
  }

  /** The frame in the making: a byte goes to position pos, which counts modulo 256. */
  function Put(frame: seq<byte>, pos: nat, b: byte): (f: seq<byte>)
    requires pos <= |frame|
    ensures |f| == (if pos == |frame| then |frame| + 1 else |frame|) && pos < |f|
  {
    if pos == |frame| then frame + [b] else frame[pos := b]
  }

  /** What `send_msg` has written of an escaped body, as long as the position, which is a byte, has
      not wrapped around; after that only the size is known. */
  ghost predicate Written(frame: seq<byte>, pos: nat, body: seq<byte>) {
    && pos < 256 && pos <= |frame| && 2 <= |frame| && pos == (|body| + 2) % 256
    && (if |body| <= 253 then frame == [SYNC, 0] + body else |frame| == 256)
  }

  method WriteByte(frame: seq<byte>, pos: nat, b: byte, ghost body: seq<byte>) returns (frame': seq<byte>, pos': nat)
    requires Written(frame, pos, body)
    ensures Written(frame', pos', body + [b])
  {
    frame' := Put(frame, pos, b);
    pos' := (pos + 1) % 256;
    NextPosition(|body|);
    if |body| < 253 {
      assert ([SYNC, 0] + body) + [b] == [SYNC, 0] + (body + [b]);
    }
  }

  lemma NextPosition(n: nat)
    ensures ((n + 2) % 256 + 1) % 256 == (n + 1 + 2) % 256
    ensures n <= 253 ==> (n + 2) % 256 == n + 2
  {
  }

  /** The loop of `send_msg` over the data. */
  method WriteBody(data: seq<byte>) returns (resultado: seq<byte>, pos: nat)
    ensures Written(resultado, pos, Escaped(data))
  {
    hide Escaped;
    resultado, pos := [SYNC, 0], 2;
    EscapedOne(0);
    assert data[..0] == [] && [SYNC, 0] + [] == [SYNC, 0];
    for i := 0 to |data|
      invariant Written(resultado, pos, Escaped(data[..i]))
    {
      assert data[..i + 1] == data[..i] + [data[i]];
      EscapedMore(data[..i], data[i]);
      ghost var body := Escaped(data[..i]);
      if data[i] < ESCAPE {
        resultado, pos := WriteByte(resultado, pos, data[i], body);
      } else {
        resultado, pos := WriteByte(resultado, pos, ESCAPE, body);
        resultado, pos := WriteByte(resultado, pos, data[i], body + [ESCAPE]);
        assert body + [ESCAPE] + [data[i]] == body + EscapedByte(data[i]);
      }
    }
    assert data[..|data|] == data;
  }

  /** The checksum loop of `send_msg`, before the last division. */
  method SumUp(resultado: seq<byte>, pos: nat) returns (checksum: byte)
    requires pos <= |resultado| && 1 <= |resultado|
    ensures checksum == Sum(resultado[1..if 1 < pos then pos else 1]) % 256
  {
    hide Sum;
    checksum := 0;
    NoSum(resultado[1..]);
    assert resultado[1..1] == [];
    for j := 1 to if 1 < pos then pos else 1
      invariant checksum == Sum(resultado[1..j]) % 256
    {
      SumPart(resultado, j);
      Modulo(Sum(resultado[1..j]), resultado[j]);
      checksum := (checksum + resultado[j]) % 256;
    }
  }

  /** `send_msg`, up to the write: a whole frame if the escaped body has at most 253 bytes; a longer
      one wraps the position, and too few bytes are written. */
  method SendMsg(data: seq<byte>) returns (sent: seq<byte>)
    ensures |Escaped(data)| <= 253 ==> sent == Frame(data)
    ensures |Escaped(data)| > 253 ==> |sent| == (|Escaped(data)| + 2) % 256 + 1 < |Escaped(data)| + 3
  {
    hide Escaped, Sum;
    var resultado, pos := WriteBody(data);
    var checksum := SumUp(resultado, pos);
    Modulo(Sum(Escaped(data)), 0);
    if |Escaped(data)| <= 253 {
      assert resultado[1..pos] == [0] + Escaped(data);
      SumFromZero(Escaped(data));
    }
    resultado := Put(resultado, pos, checksum % 128);
    resultado := resultado[1 := (pos + 254) % 256];
    sent := resultado[..pos + 1];
  }

  lemma Modulo(x: nat, b: nat)
    ensures (x % 256 + b) % 256 == (x + b) % 256 && (x + b) % 256 % 128 == (x + b) % 128
  {
    var q, r := x / 256, x % 256;
    var q', r' := (r + b) / 256, (r + b) % 256;
    RemainderIs(x + b, q + q', r', 256);
    var q2, r2 := r' / 128, r' % 128;
    RemainderIs(x + b, 2 * (q + q') + q2, r2, 128);
  }

  lemma RemainderIs(x: nat, q: nat, r: nat, m: nat)
    requires 0 <= r < m && x == m * q + r && (m == 256 || m == 128)
    ensures x % m == r
  {
    if m == 256 {
      assert x / 256 == q;
    } else {
      assert x / 128 == q;
    }
  }

  lemma SumPart(s: seq<byte>, j: nat)
    requires 1 <= j < |s|
    ensures Sum(s[1..j + 1]) == Sum(s[1..j]) + s[j]
  {
    assert s[1..j + 1][..j - 1] == s[1..j];
  }

  lemma {:induction false} SumFromZero(s: seq<byte>)
    ensures Sum([0] + s) == Sum(s)
    decreases |s|
  {
    if s == [] {
      assert ([0] + s)[..0] == [];
    } else {
      assert ([0] + s)[..|s|] == [0] + s[..|s| - 1];
      SumFromZero(s[..|s| - 1]);
    }
  }

  // -------------------------------------------------------------------------
  // Removing the escapes
  // -------------------------------------------------------------------------

  /** What `unescape` makes of the bytes from i on; after a last ESCAPE it reads one byte more. */
  function Unescaped(s: seq<byte>, i: nat, largo: nat): (t: seq<byte>)
    requires i < largo < |s|
    decreases largo - i
  {
    var j := if s[i] == ESCAPE then i + 1 else i;
    [s[j]] + if j + 1 < largo then Unescaped(s, j + 1, largo) else []
  }

  /** `unescape`: in place, since the write position never gets ahead of the read position. */
  method Unescape(buffer: array<byte>, largo: nat) returns (pos: nat)
    requires 1 <= largo < buffer.Length
    modifies buffer
    ensures pos <= buffer.Length && buffer[..pos] == Unescaped(old(buffer[..]), 0, largo)
  {
    hide Unescaped;
    ghost var s, out := buffer[..], [];
    var i := 0;
    pos := 0;
    var again := true;
    while again
      invariant 0 <= pos <= i <= buffer.Length == |s| && pos == |out|
      invariant forall k :: i <= k < buffer.Length ==> buffer[k] == s[k]
      invariant forall k :: 0 <= k < pos ==> buffer[k] == out[k]
      invariant if again then i < largo && out + Unescaped(s, i, largo) == Unescaped(s, 0, largo) else out == Unescaped(s, 0, largo)
      decreases again, largo - i
    {
      UnescapedStep(s, i, largo, out);
      if buffer[i] == ESCAPE {
        i := i + 1;
      }
      buffer[pos] := buffer[i];
      out := out + [s[i]];
      pos := pos + 1;
      i := i + 1;
      again := i < largo;
    }
  }

  lemma UnescapedStep(s: seq<byte>, i: nat, largo: nat, out: seq<byte>)
    requires i < largo < |s|
    ensures var j := if s[i] == ESCAPE then i + 1 else i;
            out + Unescaped(s, i, largo) == out + [s[j]] + if j + 1 < largo then Unescaped(s, j + 1, largo) else []
  {
  }

  // -------------------------------------------------------------------------
  // Receiving
  // -------------------------------------------------------------------------

  datatype Phase = Seeking | Length | Body | Checking

  /** The variables of `read_msg`; previous is the byte before. */
  datatype Decoder = Decoder(phase: Phase, previous: byte, largo: nat, cont: nat, checksum: byte, buffer: seq<byte>)

  datatype Outcome = Going(d: Decoder) | Done(msg: seq<byte>)

  /** n more bytes fit, and a message that is complete has a body. */
  predicate Room(d: Decoder, n: nat) {
    d.cont + n < |d.buffer| && (d.phase.Checking? ==> 1 <= d.largo == d.cont)
  }

  /** Is b the beginning of a frame and not an escaped byte? */
  predicate TrueSync(d: Decoder, b: byte) {
    b == SYNC && ((d.previous != ESCAPE && d.phase.Seeking?) || d.previous < 128)
  }

  function Next(d: Decoder, b: byte): Outcome
    requires Room(d, 1)
  {
    var e := d.(previous := b);
    if TrueSync(d, b) then Going(e.(phase := Length))
    else match d.phase
      case Seeking => Going(e)
      case Length => Going(e.(phase := Body, largo := b, checksum := 0, cont := 0))
      case Body =>
        var sum := (d.checksum + b) % 256;
        var full := d.cont + 1 == d.largo;
        Going(e.(phase := if full then Checking else Body, cont := d.cont + 1,
                 checksum := if full then sum % 128 else sum, buffer := d.buffer[d.cont := b]))
      case Checking => if b == d.checksum then Done(Unescaped(d.buffer, 0, d.largo)) else Going(e.(phase := Seeking))
  }

  /** The first message in the stream, with what comes after it; None when the bytes run out. */
  function Decode(d: Decoder, stream: seq<byte>): Option<(seq<byte>, seq<byte>)>
    requires Room(d, |stream|)
    decreases |stream|
  {
    if stream == [] then None
    else
      match Next(d, stream[0])
      case Done(msg) => Some((msg, stream[1..]))
      case Going(e) => Decode(e, stream[1..])
  }

  function Start(buffer: seq<byte>): Decoder {
    Decoder(Seeking, 1, 0, 0, 0, buffer)
  }

  // -------------------------------------------------------------------------
  // What is returned was sent
  // -------------------------------------------------------------------------

  /** msg is the body with the ESCAPE taken from before each byte that has one. After an ESCAPE at the
      very end the decoder takes one byte more from the buffer, which may be anything. */
  predicate Spells(body: seq<byte>, msg: seq<byte>)
    decreases |body|
  {
    if body == [] then msg == []
    else if body[0] != ESCAPE then msg != [] && msg[0] == body[0] && Spells(body[1..], msg[1..])
    else if |body| == 1 then |msg| == 1
    else msg != [] && msg[0] == body[1] && Spells(body[2..], msg[1..])
  }

  /** In no place of the body does a new frame begin. */
  ghost predicate Unbroken(body: seq<byte>, largo: nat) {
    forall i :: 0 <= i < |body| && body[i] == SYNC ==> Before(body, i, largo) >= 128
  }

  function Before(body: seq<byte>, i: nat, largo: nat): nat
    requires i <= |body|
  {
    if i == 0 then largo else body[i - 1]
  }

  /** s ends in a frame with this body, its length before it and its checksum behind it. */
  ghost predicate EndsInFrame(s: seq<byte>, body: seq<byte>) {
    && 1 <= |body| < 256 && |body| + 3 <= |s|
    && s[|s| - |body| - 3..] == [SYNC, |body|] + body + [Sum(body) % 128]
    && Unbroken(body, |body|)
  }

  /** A frame whose message is msg arrived, its last byte being the last one of s. */
  ghost predicate Delivered(s: seq<byte>, msg: seq<byte>) {
    exists body :: EndsInFrame(s, body) && Spells(body, msg)
  }

  /** The bytes read end with the beginning of a frame and this much of its body. */
  ghost predicate Following(d: Decoder, read: seq<byte>, body: seq<byte>) {
    && d.largo < 256 && |body| == d.cont <= |d.buffer| && d.buffer[..d.cont] == body
    && |body| + 2 <= |read| && read[|read| - |body| - 2..] == [SYNC, d.largo] + body
    && Unbroken(body, d.largo) && d.previous == Before(body, |body|, d.largo)
  }

  /** d is the state in which the decoder is after the bytes read. */
  ghost predicate Heard(d: Decoder, read: seq<byte>) {
    match d.phase
    case Seeking => true
    case Length => read != [] && read[|read| - 1] == SYNC
    case Body =>
      && (d.cont < d.largo || d.largo == 0)
      && exists body :: Following(d, read, body) && d.checksum == Sum(body) % 256
    case Checking => exists body :: Following(d, read, body) && d.checksum == Sum(body) % 128
  }

  lemma {:induction false} UnescapedSpells(s: seq<byte>, i: nat, largo: nat)
    requires i < largo < |s|
    ensures Spells(s[i..largo], Unescaped(s, i, largo))
    decreases largo - i
  {
    var j := if s[i] == ESCAPE then i + 1 else i;
    if j + 1 < largo {
      UnescapedSpells(s, j + 1, largo);
      assert s[i..largo][j + 1 - i..] == s[j + 1..largo];
    } else {
      assert Unescaped(s, i, largo) == [s[j]];
    }
  }

  lemma HeardNext(d: Decoder, read: seq<byte>, b: byte)
    requires Room(d, 1) && Heard(d, read)
    ensures match Next(d, b)
            case Going(e) => Heard(e, read + [b])
            case Done(msg) => Delivered(read + [b], msg)
  {
    hide Sum, Spells, Unescaped, Following, EndsInFrame;
    if !TrueSync(d, b) {
      match d.phase {
        case Seeking =>
        case Length => HeardLength(d, read, b);
        case Body =>
          var body :| Following(d, read, body) && d.checksum == Sum(body) % 256;
          FollowingNext(d, read, body, b, Next(d, b).d);
          SumMore(body, b);
          Modulo(Sum(body), b);
        case Checking =>
          var body :| Following(d, read, body) && d.checksum == Sum(body) % 128;
          if b == d.checksum { HeardFrame(d, read, body); }
      }
    }
  }

  lemma HeardLength(d: Decoder, read: seq<byte>, b: byte)
    requires Room(d, 1) && Heard(d, read) && d.phase.Length? && !TrueSync(d, b)
    ensures Heard(Next(d, b).d, read + [b])
  {
    hide Sum;
    var read', e := read + [b], Next(d, b).d;
    NoSum(e.buffer);
    assert read'[|read'| - 2..] == [SYNC, b] + [];
    assert Following(e, read', []);
  }

  lemma {:induction false} HeardFrame(d: Decoder, read: seq<byte>, body: seq<byte>)
    requires Room(d, 1) && d.phase.Checking? && Following(d, read, body) && d.checksum == Sum(body) % 128
    ensures Delivered(read + [d.checksum], Unescaped(d.buffer, 0, d.largo))
  {
    hide Sum, Spells, Unescaped;
    var read' := read + [d.checksum];
    UnescapedSpells(d.buffer, 0, d.largo);
    assert d.buffer[0..d.largo] == body;
    assert read'[|read'| - |body| - 3..] == read[|read| - |body| - 2..] + [d.checksum];
    assert EndsInFrame(read', body);
  }

  lemma {:induction false} SumMore(s: seq<byte>, b: byte)
    ensures Sum(s + [b]) == Sum(s) + b
  {
    assert (s + [b])[..|s|] == s;
  }

  lemma FollowingNext(d: Decoder, read: seq<byte>, body: seq<byte>, b: byte, e: Decoder)
    requires Following(d, read, body) && d.cont < |d.buffer| && (b == SYNC ==> d.previous >= 128)
    requires e.largo == d.largo && e.cont == d.cont + 1 && e.buffer == d.buffer[d.cont := b] && e.previous == b
    ensures Following(e, read + [b], body + [b])
  {
    hide Unbroken, Before;
    UnbrokenGrows(body, d.largo, b);
    BufferEnd(d.buffer, body, d.cont, b);
    EndOfRead(read, |body|, [SYNC, d.largo] + body, b);
    assert [SYNC, d.largo] + body + [b] == [SYNC, d.largo] + (body + [b]);
    FirstBefore(body, d.largo);
  }

  lemma UnbrokenGrows(body: seq<byte>, largo: nat, b: byte)
    requires Unbroken(body, largo) && (b == SYNC ==> Before(body, |body|, largo) >= 128)
    ensures Unbroken(body + [b], largo) && Before(body + [b], |body| + 1, largo) == b
  {
    forall i | 0 <= i < |body| + 1 && (body + [b])[i] == SYNC
      ensures Before(body + [b], i, largo) >= 128
    {
      assert Before(body + [b], i, largo) == Before(body, i, largo);
    }
  }

  lemma FirstBefore(body: seq<byte>, largo: nat)
    ensures Before(body, |body|, largo) == if body == [] then largo else body[|body| - 1]
  {
  }

  lemma BufferEnd(buffer: seq<byte>, body: seq<byte>, n: nat, b: byte)
    requires n == |body| < |buffer| && buffer[..n] == body
    ensures buffer[n := b][..n + 1] == body + [b]
  {
    assert buffer[n := b][..n + 1] == buffer[..n] + [b];
  }

  lemma EndOfRead(read: seq<byte>, n: nat, tail: seq<byte>, b: byte)
    requires n + 2 <= |read| && read[|read| - n - 2..] == tail
    ensures var read' := read + [b]; read'[|read'| - (n + 1) - 2..] == tail + [b]
  {
  }

  /** Nothing is returned but the message of a whole frame with the right checksum, whatever came
      before it. */
  lemma {:induction false} DecodedWasSent(d: Decoder, read: seq<byte>, stream: seq<byte>)
    requires Room(d, |stream|) && Heard(d, read)
    ensures match Decode(d, stream)
            case None => true
            case Some((msg, rest)) =>
              && |rest| < |stream| && stream[|stream| - |rest|..] == rest
              && Delivered(read + stream[..|stream| - |rest|], msg)
    decreases |stream|
  {
    hide Next, Heard, Delivered, Room;
    if stream != [] {
      RoomLess(d, |stream|);
      HeardNext(d, read, stream[0]);
      match Next(d, stream[0]) {
        case Done(msg) =>
          assert stream[..1] == [stream[0]];
        case Going(e) =>
          RoomNext(d, stream[0], |stream|);
          DecodedWasSent(e, read + [stream[0]], stream[1..]);
          var r := Decode(e, stream[1..]);
          if r.Some? {
            var n := |stream| - |r.value.1|;
            assert read + [stream[0]] + stream[1..][..n - 1] == read + stream[..n];
          }
      }
    }
  }

  lemma RoomLess(d: Decoder, n: nat)
    requires Room(d, n) && n > 0
    ensures Room(d, 1)
  {
  }

  lemma RoomNext(d: Decoder, b: byte, n: nat)
    requires n > 0 && Room(d, 1) && Room(d, n) && Next(d, b).Going?
    ensures Room(Next(d, b).d, n - 1)
  {
  }

  /** A single damaged byte in a body changes the checksum, unless only its highest bit is damaged. */
  lemma {:induction false} DamageIsNoticed(body: seq<byte>, i: nat, b: byte)
    requires i < |body|
    ensures Sum(body[i := b]) % 128 == Sum(body) % 128 <==> b % 128 == body[i] % 128
  {
    SumChanged(body, i, b);
    SameRemainder(Sum(body[i := b]), Sum(body));
    SameRemainder(b, body[i]);
  }

  lemma SameRemainder(x: nat, y: nat)
    ensures x % 128 == y % 128 <==> (x - y) % 128 == 0
  {
    var q, r, p, t := x / 128, x % 128, y / 128, y % 128;
    assert x - y == 128 * (q - p) + (r - t);
  }

  lemma {:induction false} SumChanged(body: seq<byte>, i: nat, b: byte)
    requires i < |body|
    ensures Sum(body[i := b]) + body[i] == Sum(body) + b
    decreases |body|
  {
    var n := |body| - 1;
    if i == n {
      assert body[i := b][..n] == body[..n];
    } else {
      assert body[i := b][..n] == body[..n][i := b];
      SumChanged(body[..n], i, b);
    }
  }

  /** `read_msg`, with the bytes that arrive before the timeout. */
  method ReadMsg(stream: seq<byte>, buffer: array<byte>) returns (got: Option<nat>, used: nat)
    requires |stream| < buffer.Length
    modifies buffer
    ensures got.Some? ==> got.value <= buffer.Length && used <= |stream|
    ensures Decode(Start(old(buffer[..])), stream) == if got.None? then None else Some((buffer[..got.value], stream[used..]))
    ensures got.Some? ==> Delivered(stream[..used], buffer[..got.value])
  {
    hide Delivered;
    DecodedWasSent(Start(buffer[..]), [], stream);
    ghost var goal := Decode(Start(buffer[..]), stream);
    var phase, previous, largo, cont, checksum := Seeking, 1, 0, 0, 0;
    used := 0;
    while used < |stream|
      invariant used <= |stream| && 0 <= previous < 256 && 0 <= largo && 0 <= cont && 0 <= checksum < 256
      invariant var d := Decoder(phase, previous, largo, cont, checksum, buffer[..]);
                Room(d, |stream| - used) && Decode(d, stream[used..]) == goal
    {
      ghost var d := Decoder(phase, previous, largo, cont, checksum, buffer[..]);
      var b := stream[used];
      assert stream[used..][0] == b && stream[used..][1..] == stream[used + 1..];
      used := used + 1;
      if b == SYNC && ((previous != ESCAPE && phase == Seeking) || previous < 128) {
        phase := Length;
      } else {
        match phase {
          case Seeking =>
          case Length =>
            largo, checksum, cont, phase := b, 0, 0, Body;
          case Body =>
            buffer[cont] := b;
            assert buffer[..] == d.buffer[cont := b];
            cont := cont + 1;
            checksum := (checksum + b) % 256;
            if cont == largo {
              checksum := checksum % 128;
              phase := Checking;
            }
          case Checking =>
            if b == checksum {
              var n := Unescape(buffer, largo);
              assert |stream[used..]| == |stream| - used && [] + stream[..used] == stream[..used];
              return Some(n), used;
            }
            phase := Seeking;
        }
      }
      previous := b;
    }
    got := None;
  }

  // -------------------------------------------------------------------------
  // Round trip
  // -------------------------------------------------------------------------

  lemma {:induction false} EscapedMore(data: seq<byte>, b: byte)
    ensures Escaped(data + [b]) == Escaped(data) + EscapedByte(b)
  {
    assert (data + [b])[..|data|] == data;
  }

  lemma {:induction false} EscapedSum(a: seq<byte>, b: seq<byte>)
    ensures Escaped(a + b) == Escaped(a) + Escaped(b)
    decreases |b|
  {
    if b == [] {
      assert a + b == a;
    } else {
      var front, last := b[..|b| - 1], b[|b| - 1];
      assert a + b == (a + front) + [last] && b == front + [last];
      EscapedSum(a, front);
      EscapedMore(a + front, last);
      EscapedMore(front, last);
    }
  }

  lemma {:induction false} EscapedOne(b: byte)
    ensures Escaped([b]) == EscapedByte(b) && Escaped([]) == []
  {
    assert [b][..0] == [];
  }

  /** Every byte from ESCAPE on has an ESCAPE before it: in an escaped body no byte can be taken for
      the beginning of a frame. */
  lemma {:induction false} EscapedIsSafe(data: seq<byte>, i: nat)
    requires i < |Escaped(data)| && Escaped(data)[i] == SYNC
    ensures i > 0 && Escaped(data)[i - 1] == ESCAPE
    decreases |data|
  {
    var front := data[..|data| - 1];
    if i < |Escaped(front)| { EscapedIsSafe(front, i); }
  }

  /** Removing the escapes gives the data back. */
  lemma {:induction false} UnescapedIsData(s: seq<byte>, i: nat, largo: nat, data: seq<byte>)
    requires data != [] && i < largo < |s| && s[i..largo] == Escaped(data)
    ensures Unescaped(s, i, largo) == data
    decreases |data|
  {
    hide Escaped, Unescaped;
    EscapedOne(0);
    var b, rest := data[0], data[1..];
    assert data == [b] + rest;
    EscapedSum([b], rest);
    EscapedOne(b);
    Divided(s, i, largo, EscapedByte(b), Escaped(rest));
    NotEmpty(rest);
    var j := if b < ESCAPE then i else i + 1;
    assert s[i] == EscapedByte(b)[0] && s[j] == b;
    UnescapedHead(s, i, largo);
    if rest == [] {
      assert [s[j]] + [] == data;
    } else {
      UnescapedIsData(s, j + 1, largo, rest);
    }
  }

  lemma UnescapedHead(s: seq<byte>, i: nat, largo: nat)
    requires i < largo < |s|
    ensures var j := if s[i] == ESCAPE then i + 1 else i;
            Unescaped(s, i, largo) == [s[j]] + if j + 1 < largo then Unescaped(s, j + 1, largo) else []
  {
  }

  lemma Divided(s: seq<byte>, i: nat, largo: nat, a: seq<byte>, b: seq<byte>)
    requires i <= largo <= |s| && s[i..largo] == a + b
    ensures i + |a| + |b| == largo && s[i + |a|..largo] == b && forall k :: 0 <= k < |a| ==> s[i + k] == a[k]
  {
    forall k | 0 <= k < |a|
      ensures s[i + k] == a[k]
    {
      assert s[i..largo][k] == s[i + k];
    }
    assert s[i..largo][|a|..] == s[i + |a|..largo];
  }

  lemma {:induction false} NotEmpty(data: seq<byte>)
    ensures data != [] ==> Escaped(data) != []
  {
  }

  /** The first i bytes of the body have been read. */
  ghost predicate Reading(d: Decoder, body: seq<byte>, i: nat) {
    && i <= |body| && i <= |d.buffer| && d.phase.Body? && d.largo == |body| && d.cont == i && d.buffer[..i] == body[..i]
    && d.checksum == Sum(body[..i]) % 256 && d.previous == if i == 0 then |body| else body[i - 1]
  }

  /** The whole body has been read. */
  ghost predicate BodyRead(d: Decoder, body: seq<byte>) {
    && d.phase.Checking? && d.largo == d.cont == |body| <= |d.buffer| && d.buffer[..|body|] == body
    && d.checksum == Sum(body) % 128 && body != [] && d.previous == body[|body| - 1]
  }

  lemma ReadByte(d: Decoder, body: seq<byte>, i: nat)
    requires i < |body| < 256 && Room(d, 1) && Reading(d, body, i) && (body[i] == SYNC ==> Before(body, i, |body|) >= 128)
    ensures var o := Next(d, body[i]);
            && o.Going? && |o.d.buffer| == |d.buffer|
            && (if i + 1 < |body| then Reading(o.d, body, i + 1) else BodyRead(o.d, body))
  {
    hide Sum;
    var b := body[i];
    assert !TrueSync(d, b);
    var e := Next(d, b).d;
    SumStep(body, i);
    Modulo(Sum(body[..i]), b);
    assert e.buffer == d.buffer[i := b];
    BufferGrows(d.buffer, body, i);
    if i + 1 == |body| { assert body[..i + 1] == body; }
  }

  lemma BufferGrows(buffer: seq<byte>, body: seq<byte>, i: nat)
    requires i < |body| && i < |buffer| && buffer[..i] == body[..i]
    ensures buffer[i := body[i]][..i + 1] == body[..i + 1]
  {
    assert buffer[i := body[i]][..i + 1] == buffer[..i] + [body[i]] && body[..i + 1] == body[..i] + [body[i]];
  }

  lemma SumStep(s: seq<byte>, i: nat)
    requires i < |s|
    ensures Sum(s[..i + 1]) == Sum(s[..i]) + s[i]
  {
    assert s[..i + 1][..i] == s[..i];
  }

  /** Reading the body of a frame. */
  lemma {:induction false} ReadBody(d: Decoder, body: seq<byte>, i: nat, rest: seq<byte>) returns (e: Decoder)
    requires i < |body| < 256 && Unbroken(body, |body|) && Room(d, |body| - i + |rest|) && Reading(d, body, i)
    ensures BodyRead(e, body) && Room(e, |rest|)
    ensures Decode(d, body[i..] + rest) == Decode(e, rest)
    decreases |body| - i
  {
    hide Reading, BodyRead, Next;
    var stream := body[i..] + rest;
    assert stream[0] == body[i] && stream[1..] == body[i + 1..] + rest;
    ReadByte(d, body, i);
    ReadingRoom(d, body, i);
    e := Next(d, body[i]).d;
    if i + 1 == |body| {
      BodyReadRoom(e, body);
      assert stream[1..] == rest;
    } else {
      ReadingRoom(e, body, i + 1);
      e := ReadBody(e, body, i + 1, rest);
    }
  }

  lemma ReadingRoom(d: Decoder, body: seq<byte>, i: nat)
    requires Reading(d, body, i)
    ensures d.cont == i && !d.phase.Checking?
  {
  }

  lemma BodyReadRoom(d: Decoder, body: seq<byte>)
    requires BodyRead(d, body)
    ensures d.cont == d.largo == |body| && body != []
  {
  }

  lemma {:induction false} EscapedIsUnbroken(data: seq<byte>, largo: nat)
    ensures Unbroken(Escaped(data), largo)
  {
    hide Escaped;
    var body := Escaped(data);
    forall i | 0 <= i < |body| && body[i] == SYNC
      ensures Before(body, i, largo) >= 128
    {
      EscapedIsSafe(data, i);
    }
  }

  /** A frame with any body in which no new frame begins, from any state of the decoder in which the
      byte before was below 128, or in which it was seeking and the byte before was no ESCAPE: it is
      taken in at its last byte. */
  lemma {:induction false} WholeFrameIsTaken(d: Decoder, body: seq<byte>, rest: seq<byte>) returns (e: Decoder)
    requires 1 <= |body| < 256 && Unbroken(body, |body|) && Room(d, |body| + 3 + |rest|)
    requires d.previous < 128 || (d.phase.Seeking? && d.previous != ESCAPE)
    ensures BodyRead(e, body) && Room(e, |rest| + 1)
    ensures var r := Decode(d, [SYNC, |body|] + body + [Sum(body) % 128] + rest);
            r == Some((Unescaped(e.buffer, 0, |body|), rest)) && Spells(body, r.value.0)
  {
    hide Sum, Unescaped, Decode, Unbroken, Spells;
    var after := [Sum(body) % 128] + rest;
    assert [SYNC, |body|] + body + [Sum(body) % 128] + rest == [SYNC, |body|] + (body + after);
    assert body[0..] == body;
    var d2 := ReadHeader(d, body, after);
    e := ReadBody(d2, body, 0, after);
    ReadEnd(e, body, rest);
    UnescapedSpells(e.buffer, 0, |body|);
    assert e.buffer[0..|body|] == body;
  }

  /** A whole frame is decoded to its message, from any state of the decoder in which the byte before
      was below 128, or in which it was seeking and the byte before was no ESCAPE. */
  lemma {:induction false} FrameIsDecoded(d: Decoder, data: seq<byte>, rest: seq<byte>)
    requires data != [] && |Escaped(data)| <= 253 && Room(d, |Escaped(data)| + 3 + |rest|)
    requires d.previous < 128 || (d.phase.Seeking? && d.previous != ESCAPE)
    ensures Decode(d, Frame(data) + rest) == Some((data, rest))
  {
    hide Escaped, Sum, Unescaped, Decode, Unbroken, Spells;
    NotEmpty(data);
    EscapedIsUnbroken(data, |Escaped(data)|);
    var e := WholeFrameIsTaken(d, Escaped(data), rest);
    assert e.buffer[0..|Escaped(data)|] == Escaped(data);
    UnescapedIsData(e.buffer, 0, |Escaped(data)|, data);
  }

  /** Reading the beginning of a frame. */
  lemma {:induction false} ReadHeader(d: Decoder, body: seq<byte>, after: seq<byte>) returns (e: Decoder)
    requires 0 < |body| < 256 && Room(d, |body| + 2 + |after|)
    requires d.previous < 128 || (d.phase.Seeking? && d.previous != ESCAPE)
    ensures Reading(e, body, 0) && Room(e, |body| + |after|)
    ensures Decode(d, [SYNC, |body|] + (body + after)) == Decode(e, body + after)
  {
    hide Decode;
    var d1 := Next(d, SYNC).d;
    e := Next(d1, |body|).d;
    TwoSteps(d, d1, e, SYNC, |body|, body + after);
    NoSum(body);
  }

  /** Reading the checksum of a frame. */
  lemma {:induction false} ReadEnd(d: Decoder, body: seq<byte>, rest: seq<byte>)
    requires 0 < |body| < 256 && BodyRead(d, body) && Room(d, |rest| + 1)
    ensures Decode(d, [Sum(body) % 128] + rest) == Some((Unescaped(d.buffer, 0, |body|), rest))
  {
    hide Sum, Unescaped;
    var s := [Sum(body) % 128] + rest;
    assert s[0] == d.checksum && s[1..] == rest;
  }

  lemma NoSum(s: seq<byte>)
    ensures s[..0] == [] && Sum([]) == 0
  {
  }

  lemma {:induction false} TwoSteps(d: Decoder, d1: Decoder, d2: Decoder, a: byte, b: byte, stream: seq<byte>)
    requires Room(d, |stream| + 2) && Next(d, a) == Going(d1) && Room(d1, |stream| + 1) && Next(d1, b) == Going(d2) && Room(d2, |stream|)
    ensures Decode(d, [a, b] + stream) == Decode(d2, stream)
  {
    var s := [a, b] + stream;
    assert s[0] == a && s[1..] == [b] + stream && s[1..][0] == b && s[1..][1..] == stream;
    assert Decode(d, s) == Decode(d1, s[1..]);
  }

  /** What `send_msg` writes, `read_msg` returns, whatever follows it on the line. */
  method SendAndRead(data: seq<byte>, rest: seq<byte>, buffer: array<byte>) returns (sent: seq<byte>, got: Option<nat>, used: nat)
    requires data != [] && |Escaped(data)| <= 253 && |Escaped(data)| + 3 + |rest| < buffer.Length
    modifies buffer
    ensures got.Some? && got.value <= buffer.Length && buffer[..got.value] == data && used == |sent|
  {
    hide Escaped, Decode;
    sent := SendMsg(data);
    FrameIsDecoded(Start(buffer[..]), data, rest);
    got, used := ReadMsg(sent + rest, buffer);
    assert |(sent + rest)[used..]| == |rest|;
  }

  lemma {:induction false} NeverFull(d: Decoder, stream: seq<byte>)
    requires Room(d, |stream|) && d.phase.Body? && d.largo == 0 && forall i :: 0 <= i < |stream| ==> stream[i] != SYNC
    ensures Decode(d, stream) == None
    decreases |stream|
  {
    if stream != [] { NeverFull(Next(d, stream[0]).d, stream[1..]); }
  }

  /** The message has to have a byte: the decoder waits for the end of an empty one until the next
      frame begins. */
  lemma {:induction false} EmptyIsNeverRead(rest: seq<byte>, buffer: seq<byte>)
    requires 3 + |rest| < |buffer| && forall i :: 0 <= i < |rest| ==> rest[i] != SYNC
    ensures Escaped([]) == [] && Decode(Start(buffer), Frame([]) + rest) == None
  {
    hide Decode, Escaped, Sum;
    EscapedOne(0);
    NoSum([]);
    var d := Start(buffer);
    var d1 := Next(d, SYNC).d;
    var d2 := Next(d1, 0).d;
    assert Frame([]) == [SYNC, 0, 0];
    assert Frame([]) + rest == [SYNC, 0] + ([0] + rest);
    TwoSteps(d, d1, d2, SYNC, 0, [0] + rest);
    NeverFull(d2, [0] + rest);
  }
}
