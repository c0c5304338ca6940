/** The messages of src/messages.c as bytes. Two-byte fields travel high byte first; the shifts and masks
    of the source are written as products and remainders of powers of two. */
module Wire {
  import opened Board
  import opened Rules
  import opened Diffs

  datatype Option<+T> = None | Some(value: T)

  const BOARD_CODE := 11
  const UPDATE_CODE := 12
  const CLIENT_CHAT_CODE := 7
  const SERVER_CHAT_CODE := 13

  /** The byte a value is stored in. */
  function Low(v: int): byte {
    v % 256
  }

  // ---- the header ---------------------------------------------------------------------

  type word = n: int | 0 <= n < 65536

  function WordValue(hi: byte, lo: byte): (v: word) {
    hi * 256 + lo
  }

  /** The two bytes of a word, the high one first. */
  function Word(v: word): (b: seq<byte>)
    ensures |b| == 2 && WordValue(b[0], b[1]) == v
  {
    assert v / 256 * 256 <= v < v / 256 * 256 + 256;
    var hi: byte :| hi * 256 <= v < hi * 256 + 256;
    [hi, v - hi * 256]
  }

  datatype Header = Header(codereq: int, id: int, eq: int)

  /** `connection_header_value`: one bit of team, two of id, and what sixteen bits leave for the request code. */
  function HeaderValue(codereq: int, id: int, team: int): word {
    team % 2 + id % 4 * 2 + codereq % 8192 * 8
  }

  function EncodeHeader(h: Header): (b: seq<byte>)
    ensures |b| == 2
  {
    Word(HeaderValue(h.codereq, h.id, h.eq))
  }

  /** `deserialize_message_header`: the only fields that pack to this word. */
  function DecodeHeader(hi: byte, lo: byte): (h: Header)
    ensures 0 <= h.id < 4 && 0 <= h.eq < 2 && 0 <= h.codereq < 8192
    ensures h.eq + h.id * 2 + h.codereq * 8 == WordValue(hi, lo)
  {
    var v := WordValue(hi, lo);
    assert v / 8 * 8 <= v < v / 8 * 8 + 8;
    var c :| 0 <= c < 8192 && c * 8 <= v < c * 8 + 8;
    var low := v - c * 8;
    var i := if low < 2 then 0 else if low < 4 then 1 else if low < 6 then 2 else 3;
    Header(c, i, low - i * 2)
  }

  /** Packing keeps 13 bits of the code, two of the id and one of the team: headers in that range survive,
      and every pair of bytes is the packing of what it unpacks to. */
  lemma HeaderRoundTrip(h: Header)
    ensures var b := EncodeHeader(h); DecodeHeader(b[0], b[1]) == Header(h.codereq % 8192, h.id % 4, h.eq % 2)
  {
  }

  /** The codes of the protocol are all in range. */
  lemma CodeRoundTrip(codereq: int, id: int, eq: int)
    requires 0 <= codereq < 8192
    ensures var b := EncodeHeader(Header(codereq, id, eq)); DecodeHeader(b[0], b[1]) == Header(codereq, id % 4, eq % 2)
  {
    HeaderRoundTrip(Header(codereq, id, eq));
    SmallCode(codereq);
  }

  lemma SmallCode(codereq: int)
    requires 0 <= codereq < 8192
    ensures codereq % 8192 == codereq
  {
  }

  lemma HeaderBytes(hi: byte, lo: byte)
    ensures EncodeHeader(DecodeHeader(hi, lo)) == [hi, lo]
  {
    SmallFields(DecodeHeader(hi, lo));
    WordBytes(hi, lo);
  }

  lemma SmallFields(h: Header)
    requires 0 <= h.id < 4 && 0 <= h.eq < 2 && 0 <= h.codereq < 8192
    ensures HeaderValue(h.codereq, h.id, h.eq) == h.eq + h.id * 2 + h.codereq * 8
  {
  }

  lemma WordBytes(hi: byte, lo: byte)
    ensures Word(WordValue(hi, lo)) == [hi, lo]
  {
  }

  lemma Halves(a: seq<byte>, b: seq<byte>)
    requires |a| == 2 == |b|
    ensures a + b == [a[0], a[1], b[0], b[1]]
  {
  }

  lemma SmallWord(v: byte)
    ensures Word(v) == [0, v]
  {
  }

  lemma SmallHeaderBytes(codereq: int)
    requires 0 <= codereq < 32
    ensures DecodeHeader(0, 8 * codereq) == Header(codereq, 0, 0)
  {
  }

  /** The headers of the two board messages, which concern no player. */
  lemma BoardHeader()
    ensures EncodeHeader(Header(BOARD_CODE, 0, 0)) == [0, 88] && DecodeHeader(0, 88) == Header(BOARD_CODE, 0, 0)
  {
    assert HeaderValue(BOARD_CODE, 0, 0) == 88;
    SmallWord(88);
    SmallHeaderBytes(11);
  }

  lemma UpdateHeader()
    ensures EncodeHeader(Header(UPDATE_CODE, 0, 0)) == [0, 96] && DecodeHeader(0, 96) == Header(UPDATE_CODE, 0, 0)
  {
    assert HeaderValue(UPDATE_CODE, 0, 0) == 96;
    SmallWord(96);
    SmallHeaderBytes(12);
  }

  // ---- game actions and the end of the game ---------------------------------------------

  datatype ActionMessage = ActionMessage(mode: GameMode, id: int, eq: int, num: int, action: int)

  function ModeCode(mode: GameMode, solo: int, team: int): int {
    if mode.SOLO? then solo else team
  }

  /** `game_action_value`: three bits of action below the message number. */
  function ActionValue(num: int, action: int): word {
    num % 8192 * 8 + action % 8
  }

  /** `serialize_game_action` */
  function EncodeAction(a: ActionMessage): (b: Option<seq<byte>>)
    ensures b.Some? ==> |b.value| == 4
  {
    if !(0 <= a.id <= 3) || (a.mode.TEAM? && !(0 <= a.eq <= 1)) then None
    else if !(0 <= a.num < 8192) || !(0 <= a.action <= 5) then None
    else Some(EncodeHeader(Header(ModeCode(a.mode, 5, 6), a.id, a.eq)) + Word(ActionValue(a.num, a.action)))
  }

  /** `deserialize_game_action` */
  function DecodeAction(b: seq<byte>): Option<ActionMessage>
    requires |b| >= 4
  {
    var h, v := DecodeHeader(b[0], b[1]), WordValue(b[2], b[3]);
    if h.codereq == 5 then Some(ActionMessage(SOLO, h.id, h.eq, v / 8, v % 8))
    else if h.codereq == 6 then Some(ActionMessage(TEAM, h.id, h.eq, v / 8, v % 8))
    else None
  }

  lemma UnpackAction(num: int, action: int)
    requires 0 <= num < 8192 && 0 <= action < 8
    ensures var v := ActionValue(num, action); v / 8 == num && v % 8 == action
  {
  }

  /** What four bytes decode to, given what their two halves hold. */
  lemma DecodeParts(b: seq<byte>, mode: GameMode, id: int, eq: int, num: int, action: int)
    requires |b| >= 4 && 0 <= num < 8192 && 0 <= action < 8
    requires DecodeHeader(b[0], b[1]) == Header(ModeCode(mode, 5, 6), id, eq)
    requires WordValue(b[2], b[3]) == ActionValue(num, action)
    ensures DecodeAction(b) == Some(ActionMessage(mode, id, eq, num, action))
  {
    UnpackAction(num, action);
  }

  /** An action that can be serialized comes back unchanged, but for a team number outside 0..1 in solo mode. */
  lemma ActionRoundTrip(a: ActionMessage)
    requires EncodeAction(a).Some?
    ensures DecodeAction(EncodeAction(a).value) == Some(a.(eq := a.eq % 2))
  {
    CodeRoundTrip(ModeCode(a.mode, 5, 6), a.id, a.eq);
    SmallId(a.id);
    DecodeHalves(EncodeHeader(Header(ModeCode(a.mode, 5, 6), a.id, a.eq)), Word(ActionValue(a.num, a.action)),
                 a.mode, a.id, a.eq % 2, a.num, a.action);
  }

  lemma DecodeHalves(h: seq<byte>, v: seq<byte>, mode: GameMode, id: int, eq: int, num: int, action: int)
    requires |h| == 2 == |v| && 0 <= num < 8192 && 0 <= action < 8
    requires DecodeHeader(h[0], h[1]) == Header(ModeCode(mode, 5, 6), id, eq)
    requires WordValue(v[0], v[1]) == ActionValue(num, action)
    ensures DecodeAction(h + v) == Some(ActionMessage(mode, id, eq, num, action))
  {
    Halves(h, v);
    DecodeParts(h + v, mode, id, eq, num, action);
  }

  lemma SmallId(id: int)
    requires 0 <= id < 4
    ensures id % 4 == id
  {
  }

  lemma RepackAction(v: word)
    ensures ActionValue(v / 8, v % 8) == v
  {
  }

  /** Every four bytes that decode to an action the game knows are the serialization of that action. */
  lemma ActionBytes(b: seq<byte>)
    requires |b| == 4 && DecodeAction(b).Some? && DecodeAction(b).value.action <= 5
    ensures EncodeAction(DecodeAction(b).value) == Some(b)
  {
    var a, v := DecodeAction(b).value, WordValue(b[2], b[3]);
    RepackAction(v);
    assert EncodeAction(a) == Some(EncodeHeader(DecodeHeader(b[0], b[1])) + Word(v));
    HeaderBytes(b[0], b[1]);
    WordBytes(b[2], b[3]);
    assert b == [b[0], b[1]] + [b[2], b[3]];
  }

  datatype EndMessage = EndMessage(mode: GameMode, id: int, eq: int)

  /** `serialize_game_end` */
  function EncodeEnd(e: EndMessage): (b: Option<seq<byte>>)
    ensures b.Some? ==> |b.value| == 2
  {
    if (e.mode.SOLO? && !(0 <= e.id <= 3)) || (e.mode.TEAM? && !(0 <= e.eq <= 1)) then None
    else Some(EncodeHeader(Header(ModeCode(e.mode, 15, 16), e.id, e.eq)))
  }

  /** `deserialize_game_end` */
  function DecodeEnd(b: seq<byte>): Option<EndMessage>
    requires |b| >= 2
  {
    var h := DecodeHeader(b[0], b[1]);
    if h.codereq == 15 then Some(EndMessage(SOLO, h.id, h.eq))
    else if h.codereq == 16 then Some(EndMessage(TEAM, h.id, h.eq))
    else None
  }

  lemma EndRoundTrip(e: EndMessage)
    requires EncodeEnd(e).Some?
    ensures DecodeEnd(EncodeEnd(e).value) == Some(EndMessage(e.mode, e.id % 4, e.eq % 2))
  {
    CodeRoundTrip(ModeCode(e.mode, 15, 16), e.id, e.eq);
  }

  // ---- board updates ------------------------------------------------------------------

  /** The numeric value a `char` read from the wire has. */
  function SignedChar(b: byte): int {
    if b < 128 then b else b - 256
  }

  function Records(d: seq<TileDiff>): (b: seq<byte>)
    ensures |b| == 3 * |d|
  {
    if d == [] then []
    else
      var e := d[|d| - 1];
      Records(d[..|d| - 1]) + [e.x, e.y, Low(e.tile)]
  }

  lemma RecordsSnoc(d: seq<TileDiff>, e: TileDiff)
    ensures Records(d + [e]) == Records(d) + [e.x, e.y, Low(e.tile)]
  {
    assert (d + [e])[..|d|] == d;
  }

  lemma RecordsGrow(d: seq<TileDiff>, i: nat)
    requires i < |d|
    ensures Records(d[..i + 1]) == Records(d[..i]) + [d[i].x, d[i].y, Low(d[i].tile)]
  {
    assert d[..i + 1] == d[..i] + [d[i]];
    RecordsSnoc(d[..i], d[i]);
  }

  function ReadRecords(b: seq<byte>, n: nat): (d: seq<TileDiff>)
    requires |b| >= 3 * n
    ensures |d| == n
  {
    if n == 0 then []
    else ReadRecords(b, n - 1) + [TileDiff(b[3 * n - 3], b[3 * n - 2], SignedChar(b[3 * n - 1]))]
  }

  /** A record the wire carries faithfully. */
  predicate Sendable(e: TileDiff) {
    0 <= e.tile <= 8
  }

  lemma {:induction false} ReadPrefix(b: seq<byte>, c: seq<byte>, n: nat)
    requires |b| >= 3 * n
    ensures ReadRecords(b + c, n) == ReadRecords(b, n)
  {
    if n > 0 {
      ReadPrefix(b, c, n - 1);
    }
  }

  lemma {:induction false} RecordsRoundTrip(d: seq<TileDiff>)
    requires forall k :: 0 <= k < |d| ==> Sendable(d[k])
    ensures ReadRecords(Records(d), |d|) == d
  {
    if d != [] {
      var n := |d| - 1;
      RecordsRoundTrip(d[..n]);
      var e := d[n];
      var last := [e.x, e.y, Low(e.tile)];
      ReadPrefix(Records(d[..n]), last, n);
      assert Sendable(e) && TileDiff(last[0], last[1], SignedChar(last[2])) == e;
      var b := Records(d);
      assert b[3 * n] == last[0] && b[3 * n + 1] == last[1] && b[3 * n + 2] == last[2];
      assert d == d[..n] + [e];
    }
  }

  datatype Update = Update(num: word, diff: seq<TileDiff>)

  predicate TilesSendable(d: seq<TileDiff>) {
    forall k :: 0 <= k < |d| ==> d[k].tile <= 8
  }

  /** `serialize_game_board_update` for a message number, a count and that many records. */
  function EncodeUpdate(num: word, nb: byte, diff: seq<TileDiff>): Option<seq<byte>> {
    if !TilesSendable(diff) then None
    else Some(EncodeHeader(Header(UPDATE_CODE, 0, 0)) + Word(num) + [nb] + Records(diff))
  }

  /** `deserialize_game_board_update`; of the id only its lowest bit is checked. */
  function DecodeUpdate(b: seq<byte>): Option<Update>
    requires |b| >= 5 && |b| >= 5 + 3 * (b[4] as nat)
  {
    var h := DecodeHeader(b[0], b[1]);
    if h.codereq != UPDATE_CODE || h.id % 2 != 0 || h.eq != 0 then None
    else Some(Update(WordValue(b[2], b[3]), ReadRecords(b[5..], b[4])))
  }

  /** What the parts of an update decode to, given what each of them holds. */
  lemma DecodeUpdateParts(h: seq<byte>, n: seq<byte>, count: byte, records: seq<byte>, num: word, d: seq<TileDiff>)
    requires |h| == 2 == |n| && DecodeHeader(h[0], h[1]) == Header(UPDATE_CODE, 0, 0) && WordValue(n[0], n[1]) == num
    requires count as nat == |d| && |records| == 3 * |d| && ReadRecords(records, |d|) == d
    ensures var b := h + n + [count] + records;
      |b| == 5 + 3 * |d| && b[4] == count && DecodeUpdate(b) == Some(Update(num, d))
  {
    var b := h + n + [count] + records;
    assert b[0] == h[0] && b[1] == h[1] && b[2] == n[0] && b[3] == n[1] && b[4] == count;
    assert b[5..] == records;
  }

  /** At most 255 sendable records: the decoded update is the one that was encoded. */
  lemma UpdateRoundTrip(num: word, nb: byte, diff: seq<TileDiff>)
    requires nb as nat == |diff| && forall k :: 0 <= k < |diff| ==> Sendable(diff[k])
    ensures var b := EncodeUpdate(num, nb, diff);
      && b.Some? && |b.value| == 5 + 3 * |diff| && b.value[4] == nb
      && DecodeUpdate(b.value) == Some(Update(num, diff))
  {
    UpdateHeader();
    RecordsRoundTrip(diff);
    DecodeUpdateParts([0, 96], Word(num), nb, Records(diff), num, diff);
  }

  // ---- whole boards -------------------------------------------------------------------

  datatype BoardMessage = BoardMessage(num: word, height: byte, width: byte, tiles: seq<int>)

  function TileBytes(tiles: seq<int>): (b: seq<byte>)
    ensures |b| == |tiles| && forall k :: 0 <= k < |tiles| ==> b[k] == Low(tiles[k])
  {
    seq(|tiles|, k requires 0 <= k < |tiles| => Low(tiles[k]))
  }

  function ReadTiles(b: seq<byte>): (tiles: seq<int>)
    ensures |tiles| == |b| && forall k :: 0 <= k < |b| ==> tiles[k] == SignedChar(b[k])
  {
    seq(|b|, k requires 0 <= k < |b| => SignedChar(b[k]))
  }

  predicate TilesFit(tiles: seq<int>) {
    forall k :: 0 <= k < |tiles| ==> tiles[k] <= 8
  }

  /** `serialize_game_board` */
  function EncodeBoard(m: BoardMessage): Option<seq<byte>> {
    if !TilesFit(m.tiles) then None
    else Some(EncodeHeader(Header(BOARD_CODE, 0, 0)) + Word(m.num) + [m.height, m.width] + TileBytes(m.tiles))
  }

  /** `deserialize_game_board` */
  function DecodeBoard(b: seq<byte>): Option<BoardMessage>
    requires |b| >= 6 && |b| >= 6 + (b[4] as nat) * (b[5] as nat)
  {
    var h := DecodeHeader(b[0], b[1]);
    if h.codereq != BOARD_CODE || h.id != 0 || h.eq != 0 then None
    else
      var size := (b[4] as nat) * (b[5] as nat);
      Some(BoardMessage(WordValue(b[2], b[3]), b[4], b[5], ReadTiles(b[6..6 + size])))
  }

  lemma DecodeBoardParts(h: seq<byte>, n: seq<byte>, height: byte, width: byte, tiles: seq<byte>, num: word)
    requires |h| == 2 == |n| && DecodeHeader(h[0], h[1]) == Header(BOARD_CODE, 0, 0) && WordValue(n[0], n[1]) == num
    requires |tiles| == (height as nat) * (width as nat)
    ensures var b := h + n + [height, width] + tiles;
      && |b| == 6 + |tiles| && b[4] == height && b[5] == width
      && DecodeBoard(b) == Some(BoardMessage(num, height, width, ReadTiles(tiles)))
  {
    var b := h + n + [height, width] + tiles;
    assert b[0] == h[0] && b[1] == h[1] && b[2] == n[0] && b[3] == n[1] && b[4] == height && b[5] == width;
    assert b[6..6 + |tiles|] == tiles;
  }

  /** A board with tiles up to 8 arrives as it was sent. */
  lemma BoardRoundTrip(m: BoardMessage)
    requires |m.tiles| == (m.height as nat) * (m.width as nat)
    requires forall k :: 0 <= k < |m.tiles| ==> 0 <= m.tiles[k] <= 8
    ensures var b := EncodeBoard(m);
      && b.Some? && |b.value| == 6 + |m.tiles| && b.value[4] == m.height && b.value[5] == m.width
      && DecodeBoard(b.value) == Some(m)
  {
    BoardHeader();
    assert ReadTiles(TileBytes(m.tiles)) == m.tiles;
    DecodeBoardParts([0, 88], Word(m.num), m.height, m.width, TileBytes(m.tiles), m.num);
  }

  // ---- the buffers themselves -------------------------------------------------------------

  /** The two-byte header and message number both board messages start with. */
  method WriteHead(raw: array<byte>, codereq: int, num: word)
    requires raw.Length >= 4
    modifies raw
    ensures raw[..4] == EncodeHeader(Header(codereq, 0, 0)) + Word(num)
  {
    var header, word := EncodeHeader(Header(codereq, 0, 0)), Word(num);
    raw[0], raw[1] := header[0], header[1];
    raw[2], raw[3] := word[0], word[1];
    assert raw[..4] == [raw[0], raw[1], raw[2], raw[3]];
  }

  method WriteRecord(raw: array<byte>, at: nat, e: TileDiff)
    requires at + 3 <= raw.Length
    modifies raw
    ensures raw[..at + 3] == old(raw[..at]) + [e.x, e.y, Low(e.tile)]
  {
    raw[at], raw[at + 1], raw[at + 2] := e.x, e.y, Low(e.tile);
  }

  /** The loop of `serialize_game_board_update`, which gives up at the first tile above 8. */
  method WriteRecords(raw: array<byte>, diff: array<TileDiff>, nb: nat) returns (ok: bool)
    requires nb <= diff.Length && raw.Length == 3 * nb + 5
    modifies raw
    ensures ok <==> TilesSendable(diff[..nb])
    ensures ok ==> raw[..] == old(raw[..5]) + Records(diff[..nb])
  {
    ghost var head := raw[..5];
    for i := 0 to nb
      invariant forall k :: 0 <= k < i ==> diff[k].tile <= 8
      invariant raw[..5 + 3 * i] == head + Records(diff[..i])
    {
      var e := diff[i];
      if e.tile > 8 {
        assert diff[..nb][i].tile > 8;
        return false;
      }
      WriteRecord(raw, 5 + i * 3, e);
      RecordsGrow(diff[..], i);
    }
    assert raw[..] == raw[..5 + 3 * nb];
    return true;
  }

  /** `serialize_game_board_update` fills a fresh buffer, or gives none. */
  method SerializeUpdate(num: word, nb: byte, diff: array<TileDiff>) returns (buffer: array?<byte>)
    requires nb as nat <= diff.Length
    ensures buffer == null <==> EncodeUpdate(num, nb, diff[..nb]).None?
    ensures buffer != null ==> EncodeUpdate(num, nb, diff[..nb]) == Some(buffer[..])
  {
    var raw := new byte[3 * (nb as nat) + 5](_ => 0);
    WriteHead(raw, UPDATE_CODE, num);
    ghost var head := raw[..4];
    raw[4] := nb;
    assert raw[..5] == head + [nb];
    var ok := WriteRecords(raw, diff, nb);
    if !ok {
      return null;
    }
    return raw;
  }

  /** `deserialize_game_board_update` reads as many records as the count byte says. */
  method DeserializeUpdate(buffer: array<byte>) returns (ok: bool, num: word, diff: array<TileDiff>)
    requires buffer.Length >= 5 && buffer.Length >= 5 + 3 * (buffer[4] as nat)
    ensures DecodeUpdate(buffer[..]) == if ok then Some(Update(num, diff[..])) else None
  {
    var h := DecodeHeader(buffer[0], buffer[1]);
    num := WordValue(buffer[2], buffer[3]);
    diff := new TileDiff[buffer[4]](_ => TileDiff(0, 0, 0));
    if h.codereq != UPDATE_CODE || h.id % 2 != 0 || h.eq != 0 {
      return false, num, diff;
    }
    ghost var b := buffer[..];
    for i := 0 to diff.Length
      invariant buffer[..] == b
      invariant diff[..i] == ReadRecords(b[5..], i)
    {
      diff[i] := TileDiff(buffer[5 + i * 3], buffer[6 + i * 3], SignedChar(buffer[7 + i * 3]));
      assert diff[..i + 1] == diff[..i] + [diff[i]];
    }
    assert diff[..] == diff[..diff.Length];
    ok := true;
  }

  /** The loop of `serialize_game_board`, which gives up at the first tile above 8. */
  method WriteTiles(raw: array<byte>, tiles: array<int>) returns (ok: bool)
    requires raw.Length == tiles.Length + 6
    modifies raw
    ensures ok <==> TilesFit(tiles[..])
    ensures ok ==> raw[..] == old(raw[..6]) + TileBytes(tiles[..])
  {
    ghost var head := raw[..6];
    for i := 0 to tiles.Length
      invariant raw[..6] == head
      invariant forall k :: 0 <= k < i ==> tiles[k] <= 8 && raw[6 + k] == Low(tiles[k])
    {
      if tiles[i] > 8 {
        assert tiles[..][i] > 8;
        return false;
      }
      raw[6 + i] := Low(tiles[i]);
    }
    assert raw[6..] == TileBytes(tiles[..]);
    assert raw[..] == raw[..6] + raw[6..];
    return true;
  }

  /** `serialize_game_board` */
  method SerializeBoard(num: word, height: byte, width: byte, tiles: array<int>) returns (buffer: array?<byte>)
    requires tiles.Length == (height as nat) * (width as nat)
    ensures buffer == null <==> EncodeBoard(BoardMessage(num, height, width, tiles[..])).None?
    ensures buffer != null ==> EncodeBoard(BoardMessage(num, height, width, tiles[..])) == Some(buffer[..])
  {
    var raw := new byte[tiles.Length + 6](_ => 0);
    WriteHead(raw, BOARD_CODE, num);
    ghost var head := raw[..4];
    raw[4], raw[5] := height, width;
    assert raw[..6] == head + [height, width];
    var ok := WriteTiles(raw, tiles);
    if !ok {
      return null;
    }
    return raw;
  }

  /** `deserialize_game_board` */
  method DeserializeBoard(buffer: array<byte>) returns (ok: bool, num: word, height: byte, width: byte, tiles: array<int>)
    requires buffer.Length >= 6 && buffer.Length >= 6 + (buffer[4] as nat) * (buffer[5] as nat)
    ensures tiles.Length == (height as nat) * (width as nat)
    ensures DecodeBoard(buffer[..]) == if ok then Some(BoardMessage(num, height, width, tiles[..])) else None
  {
    var h := DecodeHeader(buffer[0], buffer[1]);
    num, height, width := WordValue(buffer[2], buffer[3]), buffer[4], buffer[5];
    var size := (height as nat) * (width as nat);
    tiles := new int[size](_ => 0);
    if h.codereq != BOARD_CODE || h.id != 0 || h.eq != 0 {
      return false, num, height, width, tiles;
    }
    ghost var b := buffer[..];
    for i := 0 to size
      invariant buffer[..] == b
      invariant forall k :: 0 <= k < i ==> tiles[k] == SignedChar(b[6 + k])
    {
      tiles[i] := SignedChar(buffer[6 + i]);
    }
    assert tiles[..] == ReadTiles(b[6..6 + size]);
    ok := true;
  }
}
