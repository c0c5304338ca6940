/** The bytes of each message, written out: request code, id and team in the first two, numbers with the high
    byte first. */
module Layout {
  import opened Board
  import opened Rules
  import opened Diffs
  import opened Wire
  import opened ChatText

  /** A small request code leaves the first byte 0 and shares the second with id and team. */
  lemma HeaderLayout(codereq: int, id: int, eq: int)
    requires 0 <= codereq < 32
    ensures EncodeHeader(Header(codereq, id, eq)) == [0, 8 * codereq + 2 * (id % 4) + eq % 2]
  {
    SmallFields(Header(codereq, id % 4, eq % 2));
    SameFields(codereq, id, eq);
    SmallWord(8 * codereq + 2 * (id % 4) + eq % 2);
  }

  lemma SameFields(codereq: int, id: int, eq: int)
    ensures HeaderValue(codereq, id, eq) == HeaderValue(codereq, id % 4, eq % 2)
  {
  }

  lemma ActionLayout(a: ActionMessage)
    requires EncodeAction(a).Some?
    ensures var b := EncodeAction(a).value;
      && b[0] == 0 && b[1] == (if a.mode.SOLO? then 40 else 48) + 2 * a.id + a.eq % 2
      && 256 * (b[2] as int) + b[3] as int == 8 * a.num + a.action
  {
    HeaderLayout(ModeCode(a.mode, 5, 6), a.id, a.eq);
    SmallId(a.id);
    SmallAction(a.num, a.action);
  }

  lemma SmallAction(num: int, action: int)
    requires 0 <= num < 8192 && 0 <= action < 8
    ensures ActionValue(num, action) == 8 * num + action
  {
  }

  lemma EndLayout(e: EndMessage)
    requires EncodeEnd(e).Some?
    ensures EncodeEnd(e).value == [0, (if e.mode.SOLO? then 120 else 128) + 2 * (e.id % 4) + e.eq % 2]
  {
    HeaderLayout(ModeCode(e.mode, 15, 16), e.id, e.eq);
  }

  /** The k-th record of an update takes the three bytes from 3k on: column, row, tile. */
  lemma {:induction false} RecordLayout(d: seq<TileDiff>, k: nat)
    requires k < |d| && Sendable(d[k])
    ensures var b := Records(d); b[3 * k] == d[k].x && b[3 * k + 1] == d[k].y && b[3 * k + 2] == d[k].tile
  {
    var n := |d| - 1;
    if k < n {
      RecordLayout(d[..n], k);
    }
  }

  lemma UpdateLayout(num: word, nb: byte, diff: seq<TileDiff>, k: nat)
    requires nb as nat == |diff| && (forall j :: 0 <= j < |diff| ==> Sendable(diff[j])) && k < |diff|
    ensures EncodeUpdate(num, nb, diff).Some?
    ensures var b := EncodeUpdate(num, nb, diff).value;
      && |b| == 5 + 3 * |diff| && b[0] == 0 && b[1] == 96 && 256 * (b[2] as int) + b[3] as int == num && b[4] == nb
      && b[5 + 3 * k] == diff[k].x && b[6 + 3 * k] == diff[k].y && b[7 + 3 * k] == diff[k].tile
  {
    UpdateHeader();
    RecordLayout(diff, k);
  }

  lemma BoardLayout(m: BoardMessage, k: nat)
    requires |m.tiles| == (m.height as nat) * (m.width as nat)
    requires (forall j :: 0 <= j < |m.tiles| ==> 0 <= m.tiles[j] <= 8) && k < |m.tiles|
    ensures EncodeBoard(m).Some?
    ensures var b := EncodeBoard(m).value;
      && |b| == 6 + |m.tiles| && b[0] == 0 && b[1] == 88 && 256 * (b[2] as int) + b[3] as int == m.num
      && b[4] == m.height && b[5] == m.width && b[6 + k] == m.tiles[k]
  {
    BoardHeader();
    SmallTile(m.tiles[k]);
  }

  lemma SmallTile(t: int)
    requires 0 <= t < 256
    ensures Low(t) == t
  {
  }

  /** A chat message: 7 or 8 from a client, 13 or 14 from the server, the second of each for the team. */
  lemma ChatLayout(m: ChatMessage, toServer: bool, k: nat)
    requires 0 <= m.id <= 3 && 0 <= m.eq <= 1 && |m.text| < 256 && AllPrintable(m.text) && k < |m.text|
    ensures var b := EncodeChat(if toServer then CLIENT_CHAT_CODE else SERVER_CHAT_CODE, m, |m.text|);
      && b.Some? && |b.value| == 3 + |m.text|
      && b.value[0] == 0
      && b.value[1] == 8 * ((if toServer then 7 else 13) + if m.team then 1 else 0) + 2 * m.id + m.eq
      && b.value[2] as nat == |m.text| && b.value[3 + k] == m.text[k] as int
  {
    HeaderLayout(ChatCode(m, if toServer then CLIENT_CHAT_CODE else SERVER_CHAT_CODE), m.id, m.eq);
    SmallHeader(m.id, m.eq);
    assert Printable(m.text[k]);
    SmallTile(m.text[k] as int);
  }

  /** The numbers of the tiles: player i is 5 + i. */
  lemma TileCodes(i: int)
    requires 0 <= i < PLAYER_NUM
    ensures Code(Empty) == 0 && Code(IndestructibleWall) == 1 && Code(DestructibleWall) == 2 && Code(Bomb) == 3
    ensures Code(Explosion) == 4 && Code(PlayerTile(i)) == 5 + i && Code(VerticalBorder) == 9 && Code(HorizontalBorder) == 10
  {
  }

  // ---- what is refused -------------------------------------------------------------------------------

  lemma SerializersRefuse(a: ActionMessage, e: EndMessage, c: ChatMessage, length: byte, code: int)
    ensures EncodeAction(a).None? <==>
      a.id !in {0, 1, 2, 3} || (a.mode == TEAM && a.eq !in {0, 1}) || a.num < 0 || a.num > 8191
      || a.action !in {0, 1, 2, 3, 4, 5}
    ensures EncodeEnd(e).None? <==> (e.mode == SOLO && e.id !in {0, 1, 2, 3}) || (e.mode == TEAM && e.eq !in {0, 1})
    ensures EncodeChat(code, c, length).None? <==> c.id !in {0, 1, 2, 3} || (c.team && c.eq !in {0, 1})
  {
  }

  lemma BoardSerializersRefuse(num: word, nb: byte, diff: seq<TileDiff>, m: BoardMessage)
    ensures EncodeUpdate(num, nb, diff).None? <==> exists k :: 0 <= k < |diff| && diff[k].tile > 8
    ensures EncodeBoard(m).None? <==> exists k :: 0 <= k < |m.tiles| && m.tiles[k] > 8
  {
  }

  /** Of a header only these second bytes are accepted, behind a first byte 0. */
  lemma DecodersAccept(b: seq<byte>)
    requires |b| >= 6
    ensures DecodeAction(b).Some? <==> b[0] == 0 && 40 <= b[1] < 56
    ensures DecodeEnd(b).Some? <==> b[0] == 0 && 120 <= b[1] < 136
    ensures |b| >= 5 + 3 * (b[4] as nat) ==> (DecodeUpdate(b).Some? <==> b[0] == 0 && b[1] in {96, 100})
    ensures |b| >= 6 + (b[4] as nat) * (b[5] as nat) ==> (DecodeBoard(b).Some? <==> b[0] == 0 && b[1] == 88)
  {
    var h := DecodeHeader(b[0], b[1]);
    HeaderSum(h, b[0], b[1]);
  }

  /** A header is below 256 exactly when its first byte is 0; then the request code decides its range. */
  lemma HeaderSum(h: Header, hi: byte, lo: byte)
    requires 0 <= h.id < 4 && 0 <= h.eq < 2 && 0 <= h.codereq < 8192
    requires h.eq + h.id * 2 + h.codereq * 8 == WordValue(hi, lo)
    ensures hi == 0 ==> h.codereq * 8 <= lo < h.codereq * 8 + 8
    ensures hi != 0 ==> h.codereq >= 32
  {
  }

  lemma ChatDecoderAccepts(b: seq<byte>, toServer: bool)
    requires |b| >= 3 && |b| >= 3 + (b[2] as nat)
    ensures DecodeChat(if toServer then CLIENT_CHAT_CODE else SERVER_CHAT_CODE, b).Some? <==>
      b[0] == 0 && if toServer then 56 <= b[1] < 72 else 104 <= b[1] < 120
  {
    var h := DecodeHeader(b[0], b[1]);
    HeaderSum(h, b[0], b[1]);
  }

  /** A byte above 127 is read as a negative tile. */
  lemma {:induction false} RecordRead(b: seq<byte>, n: nat, k: nat)
    requires |b| >= 3 * n && k < n
    ensures ReadRecords(b, n)[k] == TileDiff(b[3 * k], b[3 * k + 1],
                                             if b[3 * k + 2] < 128 then b[3 * k + 2] else (b[3 * k + 2] as int) - 256)
  {
    if k < n - 1 {
      RecordRead(b, n - 1, k);
    }
  }

  /** What the decoders read from whatever message they accept. */
  lemma DecodersRead(b: seq<byte>, k: nat)
    requires |b| >= 6
    ensures |b| >= 5 + 3 * (b[4] as nat) && k < b[4] as nat && DecodeUpdate(b).Some? ==>
      var u := DecodeUpdate(b).value;
      && u.num == 256 * (b[2] as int) + b[3] as int && |u.diff| == b[4] as nat
      && u.diff[k] == TileDiff(b[5 + 3 * k], b[6 + 3 * k], if b[7 + 3 * k] < 128 then b[7 + 3 * k] else (b[7 + 3 * k] as int) - 256)
    ensures |b| >= 6 + (b[4] as nat) * (b[5] as nat) && k < (b[4] as nat) * (b[5] as nat) && DecodeBoard(b).Some? ==>
      var m := DecodeBoard(b).value;
      && m.num == 256 * (b[2] as int) + b[3] as int && m.height == b[4] && m.width == b[5]
      && |m.tiles| == (b[4] as nat) * (b[5] as nat) && m.tiles[k] == if b[6 + k] < 128 then b[6 + k] else (b[6 + k] as int) - 256
  {
    if |b| >= 5 + 3 * (b[4] as nat) && k < b[4] as nat {
      RecordRead(b[5..], b[4], k);
    }
  }
}
