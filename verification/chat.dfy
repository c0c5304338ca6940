/** Typed text from the line buffer to everybody's history (src/chat_model.c, src/messages.c). */
module ChatText {
  import opened Board
  import opened Wire
  import opened ChatRing

  const NUL := 0 as char

  predicate Printable(c: char) {
    ' ' <= c <= '~'
  }

  predicate AllPrintable(s: string) {
    forall i :: 0 <= i < |s| ==> Printable(s[i])
  }

  // ---- the line buffer ---------------------------------------------------------------------

  class ChatLine {
    const data: array<char>
    var cursor: nat

    /** Printable up to the cursor, NUL from there on. */
    ghost predicate Valid()
      reads this, data
    {
      && data.Length == TEXT_SIZE && cursor <= TEXT_SIZE
      && (forall i :: 0 <= i < cursor ==> Printable(data[i]))
      && (forall i :: cursor <= i < TEXT_SIZE ==> data[i] == NUL)
    }

    function Text(): string
      requires cursor <= data.Length
      reads this, data
    {
      data[..cursor]
    }

    constructor ()
      ensures Valid() && Text() == [] && fresh(data)
    {
      data := new char[TEXT_SIZE](_ => NUL);
      cursor := 0;
    }

    /** `add_to_line` */
    method AddToLine(c: char)
      requires Valid()
      modifies this, data
      ensures Valid()
      ensures Text() == old(Text()) + if |old(Text())| < 60 && ' ' <= c <= '~' then [c] else []
    {
      if cursor < TEXT_SIZE && c >= ' ' && c <= '~' {
        data[cursor] := c;
        cursor := cursor + 1;
      }
    }

    /** `decrement_line` */
    method DecrementLine()
      requires Valid()
      modifies this, data
      ensures Valid()
      ensures old(Text()) == [] ==> Text() == []
      ensures old(Text()) != [] ==> Text() == old(Text())[..|old(Text())| - 1]
    {
      if cursor > 0 {
        cursor := cursor - 1;
        data[cursor] := NUL;
      }
    }

    /** `clear_line` erases only what was typed, which is all there is. */
    method ClearLine()
      requires Valid()
      modifies this, data
      ensures Valid() && Text() == []
    {
      var n := cursor;
      for i := 0 to n
        invariant forall j :: 0 <= j < i || n <= j < TEXT_SIZE ==> data[j] == NUL
      {
        data[i] := NUL;
      }
      cursor := 0;
    }
  }

  // ---- chat messages as bytes -----------------------------------------------------------------

  datatype ChatMessage = ChatMessage(team: bool, id: int, eq: int, text: string)

  function ByteOf(c: char): byte {
    Low(c as int)
  }

  /** `strncpy`: the text up to its end, then NUL bytes. */
  function CopyText(text: string, n: nat): (b: seq<byte>)
    ensures |b| == n
  {
    seq(n, i requires 0 <= i < n => if i < |text| then ByteOf(text[i]) else 0)
  }

  /** The C string that starts a sequence of bytes. */
  function ReadText(b: seq<byte>): (text: string)
    ensures |text| <= |b|
  {
    if b == [] || b[0] == 0 then [] else [b[0] as char] + ReadText(b[1..])
  }

  function ChatCode(m: ChatMessage, code: int): int {
    if m.team then code + 1 else code
  }

  /** `serialize_chat_message` with a length byte. */
  function EncodeChat(code: int, m: ChatMessage, length: byte): Option<seq<byte>> {
    if !(0 <= m.id <= 3) || (m.team && !(0 <= m.eq <= 1)) then None
    else Some(EncodeHeader(Header(ChatCode(m, code), m.id, m.eq)) + [length] + CopyText(m.text, length))
  }

  /** `deserialize_chat_message` */
  function DecodeChat(code: int, b: seq<byte>): Option<ChatMessage>
    requires |b| >= 3 && |b| >= 3 + (b[2] as nat)
  {
    var h := DecodeHeader(b[0], b[1]);
    var text := ReadText(b[3..3 + (b[2] as nat)]);
    if h.codereq == code then Some(ChatMessage(false, h.id, h.eq, text))
    else if h.codereq == code + 1 then Some(ChatMessage(true, h.id, h.eq, text))
    else None
  }

  lemma {:induction false} TextRoundTrip(text: string)
    requires AllPrintable(text)
    ensures ReadText(CopyText(text, |text|)) == text
  {
    if text != [] {
      TextRoundTrip(text[1..]);
      var b := CopyText(text, |text|);
      assert b[1..] == CopyText(text[1..], |text| - 1);
      PrintableByte(text[0]);
      assert text == [text[0]] + text[1..];
    }
  }

  lemma PrintableByte(c: char)
    requires Printable(c)
    ensures ByteOf(c) != 0 && ByteOf(c) as char == c
  {
    assert 32 <= c as int <= 126;
    assert ByteOf(c) == c as int;
  }

  lemma DecodeChatParts(code: int, h: seq<byte>, length: byte, text: seq<byte>, m: ChatMessage)
    requires |h| == 2 && length as nat == |text|
    requires DecodeHeader(h[0], h[1]) == Header(ChatCode(m, code), m.id, m.eq) && ReadText(text) == m.text
    ensures var b := h + [length] + text;
      |b| == 3 + |text| && b[2] == length && DecodeChat(code, b) == Some(m)
  {
    var b := h + [length] + text;
    assert b[0] == h[0] && b[1] == h[1] && b[2] == length;
    assert b[3..3 + |text|] == text;
  }

  /** A printable text of less than 256 characters arrives as it was sent. */
  lemma ChatRoundTrip(code: int, m: ChatMessage)
    requires 0 <= code < 8000 && 0 <= m.id <= 3 && 0 <= m.eq <= 1
    requires |m.text| < 256 && AllPrintable(m.text)
    ensures var b := EncodeChat(code, m, |m.text|);
      && b.Some? && |b.value| == 3 + |m.text| && b.value[2] as nat == |m.text|
      && DecodeChat(code, b.value) == Some(m)
  {
    var h := Header(ChatCode(m, code), m.id, m.eq);
    CodeRoundTrip(h.codereq, m.id, m.eq);
    SmallHeader(m.id, m.eq);
    TextRoundTrip(m.text);
    DecodeChatParts(code, EncodeHeader(h), |m.text|, CopyText(m.text, |m.text|), m);
  }

  lemma SmallHeader(id: int, eq: int)
    requires 0 <= id < 4 && 0 <= eq < 2
    ensures id % 4 == id && eq % 2 == eq
  {
  }

  /** The queue ends with m and begins with the latest of what was there before. */
  predicate EndsWith(queue: seq<Message>, before: seq<Message>, m: Message) {
    queue == LastOf(before, MAX_CHAT_HISTORY_LEN - 1) + [m]
  }

  lemma AttemptEnds(queue: seq<Message>, a: Attempt)
    requires |queue| <= MAX_CHAT_HISTORY_LEN && Acceptable(a.sender, a.text)
    ensures EndsWith(AfterAttempt(queue, a), queue, Message(a.sender, Clip(a.text), a.whispered))
  {
  }

  /** From a typed line to the histories, whatever the sender's history q and a recipient's history r hold:
      the server reads the text that was typed, so does the recipient, and both histories end with the same
      message. It shows the typed text exactly when that is shorter than the buffer: of a full line of 60
      characters the histories keep 59. */
  lemma TextSurvives(text: string, team: bool, id: int, eq: int, q: seq<Message>, r: seq<Message>)
    requires AllPrintable(text) && 1 <= |text| <= TEXT_SIZE && 0 <= id <= 3 && 0 <= eq <= 1
    requires |q| <= MAX_CHAT_HISTORY_LEN && |r| <= MAX_CHAT_HISTORY_LEN
    ensures var m := ChatMessage(team, id, eq, text);
      var toServer := EncodeChat(CLIENT_CHAT_CODE, m, |text|);
      && toServer.Some? && |toServer.value| == 3 + |text| && toServer.value[2] as nat == |text|
      && var atServer := DecodeChat(CLIENT_CHAT_CODE, toServer.value);
      && atServer == Some(m)
      && var toOthers := EncodeChat(SERVER_CHAT_CODE, atServer.value, |text|);
      && toOthers.Some? && |toOthers.value| == 3 + |text| && toOthers.value[2] as nat == |text|
      && var got := DecodeChat(SERVER_CHAT_CODE, toOthers.value);
      && got.Some? && got.value.text == text
      && var kept := Message(id, Clip(text), team);
      && EndsWith(AfterAttempt(q, Attempt(id, text, team)), q, kept)
      && EndsWith(AfterAttempt(r, Attempt(got.value.id, got.value.text, got.value.team)), r, kept)
      && (kept.text == text <==> |text| < TEXT_SIZE)
  {
    var m := ChatMessage(team, id, eq, text);
    ChatRoundTrip(CLIENT_CHAT_CODE, m);
    ChatRoundTrip(SERVER_CHAT_CODE, m);
    AttemptEnds(q, Attempt(id, text, team));
    AttemptEnds(r, Attempt(id, text, team));
  }

  // ---- the client's chat -------------------------------------------------------------------

  class Chat {
    const history: ChatHistory
    const line: ChatLine
    var whispering: bool

    ghost predicate Valid()
      reads this, history, history.nodes, line, line.data
    {
      history.Valid() && line.Valid()
    }

    constructor ()
      ensures Valid() && history.nodes == [] && line.Text() == [] && !whispering
    {
      history := new ChatHistory();
      line := new ChatLine();
      whispering := false;
    }

    /** `add_message_from_client`: the typed line goes into the history and is handed out whole. A node's text
        is cut to 59 characters, so what lies behind a full buffer does not show. */
    method AddMessageFromClient(clientId: int) returns (ok: bool, message: string, whispered: bool)
      requires Valid()
      modifies history, history.nodes
      ensures Valid() && line.Text() == old(line.Text()) && whispering == old(whispering)
      ensures ok == Acceptable(clientId, line.Text())
      ensures history.Contents() == AfterAttempt(old(history.Contents()), Attempt(clientId, line.Text(), whispering))
      ensures ok ==> message == line.Text() && whispered == whispering
    {
      ok, message, whispered := false, [], false;
      if line.cursor == 0 {
        return;
      }
      var node := CreateChatNode(clientId, line.Text(), whispering);
      if node == null {
        return;
      }
      message := line.data[..line.cursor];
      whispered := whispering;
      history.Append(node);
      ok := true;
    }

    /** The send action of the client: the message goes out as a team or a global one and the line is cleared. */
    method SendLine(clientId: int, eq: int) returns (sent: Option<seq<byte>>)
      requires Valid()
      modifies history, history.nodes, line, line.data
      ensures Valid() && whispering == old(whispering)
      ensures var typed := old(line.Text());
        && history.Contents() == AfterAttempt(old(history.Contents()), Attempt(clientId, typed, whispering))
        && if Acceptable(clientId, typed) then
             line.Text() == []
             && sent == EncodeChat(CLIENT_CHAT_CODE, ChatMessage(whispering, clientId, eq, typed), |typed|)
           else line.Text() == typed && sent == None
    {
      var ok, message, whispered := AddMessageFromClient(clientId);
      sent := None;
      if ok {
        sent := EncodeChat(CLIENT_CHAT_CODE, ChatMessage(whispered, clientId, eq, message), |message|);
        line.ClearLine();
      }
    }
  }
}
