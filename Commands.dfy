/** The seven sensor commands of the host program. Each one encodes its
    parameters into a command frame, sends it, reads whatever the sensor
    answered within the read window, and decodes that answer. The serial
    round trip is not modelled: the answer is a parameter, and each command
    returns the frame it would write together with the decoded reply. */
module Commands {
  import opened Bytes
  import opened Results
  import opened Packet

  /** Instruction codes. */
  const GetImageCode: byte := 0x01
  const GenCharCode: byte := 0x02
  const MatchCode: byte := 0x03
  const SearchCode: byte := 0x04
  const RegModelCode: byte := 0x05
  const StoreCode: byte := 0x06
  const LoadCharCode: byte := 0x07

  /** The confirmation code for success. */
  const Success: byte := 0x00

  /** One command round trip: the frame written to the sensor, and the
      decoded answer (or the exception decoding it raised). */
  datatype Exchange<T> = Exchange(request: seq<byte>, reply: Result<T>)

  /** `(code, match_id, match_score)` as returned by the search command;
      the two fields are `None` unless the code is success. */
  datatype SearchReply = SearchReply(code: byte, matchId: Option<nat>, score: Option<nat>)

  /** `(code, score)` as returned by the match command. */
  datatype MatchReply = MatchReply(code: byte, score: Option<nat>)

  /** `bytes([v])` accepts only values in 0..255 and raises otherwise. */
  function ToByte(v: int): (r: Result<byte>)
    ensures r.Ok? <==> 0 <= v < 256
    ensures r.Ok? ==> r.value == v
    ensures r.Err? ==> r.error == ByteOutOfRange
  {
    if 0 <= v < 256 then Ok(v) else Err(ByteOutOfRange)
  }

  /** `code, _ = parse_ack(resp)`: the reply of every command that returns
      only the confirmation code. */
  function DecodeCode(response: seq<byte>): (r: Result<byte>)
    ensures r.Ok? <==> ParseAck(response).Ok?
    ensures r.Ok? ==> r.value == response[9]
    ensures r.Err? ==> r.error == ParseAck(response).error
  {
    match ParseAck(response)
    case Err(e) => Err(e)
    case Ok(ack) => Ok(ack.code)
  }

  /** Reply decoding of the search command: on success the match id and score
      are the big-endian values of payload bytes 1-2 and 3-4, which stand at
      offsets 10-11 and 12-13 of the answer; a payload of success shorter than
      five bytes makes the indexing fail. */
  function DecodeSearch(response: seq<byte>): (r: Result<SearchReply>)
    ensures ParseAck(response).Err? ==> r == Err(ParseAck(response).error)
    ensures r.Ok? ==> ParseAck(response).Ok? && r.value.code == response[9]
    ensures r.Ok? && r.value.code == Success ==>
      |response| >= 14 &&
      r.value.matchId == Some(Unpack16(response[10], response[11])) &&
      r.value.score == Some(Unpack16(response[12], response[13]))
    ensures r.Ok? && r.value.code != Success ==> r.value.matchId == None && r.value.score == None
    ensures ParseAck(response).Ok? && r.Err? <==>
      ParseAck(response).Ok? && response[9] == Success && |ParseAck(response).value.payload| < 5
    ensures r.Err? && ParseAck(response).Ok? ==> r.error == IndexError
  {
    match ParseAck(response)
    case Err(e) => Err(e)
    case Ok(ack) =>
      if ack.code == Success then
        if |ack.payload| < 5 then Err(IndexError)
        else
          var p := ack.payload;
          assert p[1..5] == response[10..14];
          Ok(SearchReply(ack.code, Some(Unpack16(p[1], p[2])), Some(Unpack16(p[3], p[4]))))
      else
        Ok(SearchReply(ack.code, None, None))
  }

  /** Reply decoding of the match command: on success the score is the
      big-endian value of payload bytes 1-2 (answer offsets 10-11). */
  function DecodeMatch(response: seq<byte>): (r: Result<MatchReply>)
    ensures ParseAck(response).Err? ==> r == Err(ParseAck(response).error)
    ensures r.Ok? ==> ParseAck(response).Ok? && r.value.code == response[9]
    ensures r.Ok? && r.value.code == Success ==>
      |response| >= 12 && r.value.score == Some(Unpack16(response[10], response[11]))
    ensures r.Ok? && r.value.code != Success ==> r.value.score == None
    ensures ParseAck(response).Ok? && r.Err? <==>
      ParseAck(response).Ok? && response[9] == Success && |ParseAck(response).value.payload| < 3
    ensures r.Err? && ParseAck(response).Ok? ==> r.error == IndexError
  {
    match ParseAck(response)
    case Err(e) => Err(e)
    case Ok(ack) =>
      if ack.code == Success then
        if |ack.payload| < 3 then Err(IndexError)
        else
          var p := ack.payload;
          assert p[1..3] == response[10..12];
          Ok(MatchReply(ack.code, Some(Unpack16(p[1], p[2]))))
      else
        Ok(MatchReply(ack.code, None))
  }

  /** `ps_get_image`: a parameterless command frame. */
  function GetImage(response: seq<byte>): (x: Exchange<byte>)
    ensures |x.request| == 12 && x.request[9] == GetImageCode && WellFormedCommand(x.request)
    ensures x.reply == DecodeCode(response)
  {
    Exchange(BuildPacket(GetImageCode, []), DecodeCode(response))
  }

  /** `ps_gen_char`: one parameter byte, the buffer id. */
  function GenChar(bufferId: int, response: seq<byte>): (r: Result<Exchange<byte>>)
    ensures r.Err? <==> !(0 <= bufferId < 256)
    ensures r.Err? ==> r.error == ByteOutOfRange
    ensures r.Ok? ==>
      var req := r.value.request;
      && |req| == 13 && req[9] == GenCharCode && req[10] == bufferId
      && WellFormedCommand(req)
      && r.value.reply == DecodeCode(response)
  {
    match ToByte(bufferId)
    case Err(e) => Err(e)
    case Ok(b) => Ok(Exchange(BuildPacket(GenCharCode, [b]), DecodeCode(response)))
  }

  /** `ps_reg_model`: a parameterless command frame. */
  function RegModel(response: seq<byte>): (x: Exchange<byte>)
    ensures |x.request| == 12 && x.request[9] == RegModelCode && WellFormedCommand(x.request)
    ensures x.reply == DecodeCode(response)
  {
    Exchange(BuildPacket(RegModelCode, []), DecodeCode(response))
  }

  /** The three parameter bytes shared by store and load: the buffer id, then
      the page id as two big-endian bytes masked to 16 bits. */
  function PageParams(bufferId: byte, pageId: int): (r: seq<byte>)
    ensures |r| == 3 && r[0] == bufferId && Unpack16(r[1], r[2]) == pageId % 0x1_0000
  {
    [bufferId] + Pack16(pageId)
  }

  /** `ps_store`: buffer id, then page id. */
  function Store(pageId: int, bufferId: int, response: seq<byte>): (r: Result<Exchange<byte>>)
    ensures r.Err? <==> !(0 <= bufferId < 256)
    ensures r.Err? ==> r.error == ByteOutOfRange
    ensures r.Ok? ==>
      var req := r.value.request;
      && |req| == 15 && req[9] == StoreCode && req[10] == bufferId
      && Unpack16(req[11], req[12]) == pageId % 0x1_0000
      && WellFormedCommand(req)
      && r.value.reply == DecodeCode(response)
  {
    match ToByte(bufferId)
    case Err(e) => Err(e)
    case Ok(b) =>
      var params := PageParams(b, pageId);
      var req := BuildPacket(StoreCode, params);
      assert req[10..13] == params;
      Ok(Exchange(req, DecodeCode(response)))
  }

  /** `ps_load_char`: buffer id, then page id, exactly as store writes them. */
  function LoadChar(pageId: int, bufferId: int, response: seq<byte>): (r: Result<Exchange<byte>>)
    ensures r.Err? <==> !(0 <= bufferId < 256)
    ensures r.Err? ==> r.error == ByteOutOfRange
    ensures r.Ok? ==>
      var req := r.value.request;
      && |req| == 15 && req[9] == LoadCharCode && req[10] == bufferId
      && Unpack16(req[11], req[12]) == pageId % 0x1_0000
      && WellFormedCommand(req)
      && r.value.reply == DecodeCode(response)
  {
    match ToByte(bufferId)
    case Err(e) => Err(e)
    case Ok(b) =>
      var params := PageParams(b, pageId);
      var req := BuildPacket(LoadCharCode, params);
      assert req[10..13] == params;
      Ok(Exchange(req, DecodeCode(response)))
  }

  /** `ps_search`: buffer id, start page and page count, both counts as two
      big-endian bytes masked to 16 bits. */
  function Search(bufferId: int, startPage: int, numPages: int, response: seq<byte>)
    : (r: Result<Exchange<SearchReply>>)
    ensures r.Err? <==> !(0 <= bufferId < 256)
    ensures r.Err? ==> r.error == ByteOutOfRange
    ensures r.Ok? ==>
      var req := r.value.request;
      && |req| == 17 && req[9] == SearchCode && req[10] == bufferId
      && Unpack16(req[11], req[12]) == startPage % 0x1_0000
      && Unpack16(req[13], req[14]) == numPages % 0x1_0000
      && WellFormedCommand(req)
      && r.value.reply == DecodeSearch(response)
  {
    match ToByte(bufferId)
    case Err(e) => Err(e)
    case Ok(b) =>
      var start, count := Pack16(startPage), Pack16(numPages);
      var params := [b] + start + count;
      var req := BuildPacket(SearchCode, params);
      assert req[10..15] == params;
      Ok(Exchange(req, DecodeSearch(response)))
  }

  /** `ps_match`: the two buffer ids to compare. */
  function Match(buf1: int, buf2: int, response: seq<byte>): (r: Result<Exchange<MatchReply>>)
    ensures r.Err? <==> !(0 <= buf1 < 256 && 0 <= buf2 < 256)
    ensures r.Err? ==> r.error == ByteOutOfRange
    ensures r.Ok? ==>
      var req := r.value.request;
      && |req| == 14 && req[9] == MatchCode && req[10] == buf1 && req[11] == buf2
      && WellFormedCommand(req)
      && r.value.reply == DecodeMatch(response)
  {
    if !(0 <= buf1 < 256 && 0 <= buf2 < 256) then Err(ByteOutOfRange)
    else
      var req := BuildPacket(MatchCode, [buf1, buf2]);
      assert req[10..12] == [buf1, buf2];
      Ok(Exchange(req, DecodeMatch(response)))
  }

  /** A page id outside 0..65535 is sent as its residue modulo 65536: store
      and load address the same slot for both. */
  lemma PageIdWraps(pageId: int, bufferId: int, response: seq<byte>)
    ensures Store(pageId, bufferId, response) == Store(pageId % 0x1_0000, bufferId, response)
    ensures LoadChar(pageId, bufferId, response) == LoadChar(pageId % 0x1_0000, bufferId, response)
  {
    Pack16Wraps(pageId);
  }

  /** Start page and page count of a search wrap modulo 65536 the same way. */
  lemma SearchRangeWraps(bufferId: int, startPage: int, numPages: int, response: seq<byte>)
    ensures Search(bufferId, startPage, numPages, response)
         == Search(bufferId, startPage % 0x1_0000, numPages % 0x1_0000, response)
  {
    Pack16Wraps(startPage);
    Pack16Wraps(numPages);
  }

  /** An answer framed from a payload decodes to the payload's first byte. */
  lemma CodeRoundTrip(payload: seq<byte>)
    requires 1 <= |payload| <= 0x1_0000 - 3
    ensures DecodeCode(FrameOf(AckPacket, payload)) == Ok(payload[0])
  {
    AckRoundTrip(payload);
  }

  /** A successful search answer carrying a match id and a score, each written
      as two big-endian bytes, decodes back to that id and score. */
  lemma SearchReplyRoundTrip(matchId: nat, score: nat)
    requires matchId < 0x1_0000 && score < 0x1_0000
    ensures DecodeSearch(FrameOf(AckPacket, [Success] + Pack16(matchId) + Pack16(score)))
         == Ok(SearchReply(Success, Some(matchId), Some(score)))
  {
    assert matchId % 0x1_0000 == matchId && score % 0x1_0000 == score;
    var id, sc := Pack16(matchId), Pack16(score);
    assert Unpack16(id[0], id[1]) == matchId && Unpack16(sc[0], sc[1]) == score;
    var payload := [Success] + id + sc;
    assert payload[1] == id[0] && payload[2] == id[1] && payload[3] == sc[0] && payload[4] == sc[1];
    AckRoundTrip(payload);
  }

  /** A search answer with a failure code decodes to that code and no fields,
      whatever follows the code. */
  lemma SearchReplyNoMatch(code: byte, rest: seq<byte>)
    requires code != Success && |rest| <= 0x1_0000 - 4
    ensures DecodeSearch(FrameOf(AckPacket, [code] + rest)) == Ok(SearchReply(code, None, None))
  {
    AckRoundTrip([code] + rest);
  }

  /** A search answer of success whose payload stops before the score makes
      the decoder index past its end. */
  lemma SearchReplyTooShort(payload: seq<byte>)
    requires 1 <= |payload| < 5 && payload[0] == Success
    ensures DecodeSearch(FrameOf(AckPacket, payload)) == Err(IndexError)
  {
    AckRoundTrip(payload);
  }

  /** A successful match answer carrying a score decodes back to that score. */
  lemma MatchReplyRoundTrip(score: nat)
    requires score < 0x1_0000
    ensures DecodeMatch(FrameOf(AckPacket, [Success] + Pack16(score))) == Ok(MatchReply(Success, Some(score)))
  {
    assert score % 0x1_0000 == score;
    var sc := Pack16(score);
    assert Unpack16(sc[0], sc[1]) == score;
    var payload := [Success] + sc;
    assert payload[1] == sc[0] && payload[2] == sc[1];
    AckRoundTrip(payload);
  }

  /** A match answer with a failure code decodes to that code and no score. */
  lemma MatchReplyNoMatch(code: byte, rest: seq<byte>)
    requires code != Success && |rest| <= 0x1_0000 - 4
    ensures DecodeMatch(FrameOf(AckPacket, [code] + rest)) == Ok(MatchReply(code, None))
  {
    AckRoundTrip([code] + rest);
  }
}
