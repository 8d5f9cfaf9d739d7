/** The byte-at-a-time decoder for double-byte code pages in src/codepage.c.
  *
  * The conversion library is an oracle: a function from a chunk of one or two bytes to the UTF-8
  * text it yields, empty when it refuses the chunk. */
module Dbcs {
  import opened Bytes
  import opened Options

  datatype Codepage = CP932 | CP949 | CP936
  type Oracle = seq<Byte> -> seq<Byte>
  const REPLACEMENT: seq<Byte> := [63]

  predicate IsLead(codepage: Codepage, b: Byte) {
    if codepage == CP932 then 0x81 <= b <= 0x9F || 0xE0 <= b <= 0xFC else 0x81 <= b <= 0xFE
  }

  /** session_codepage_iconv_chunk: all of the converted text, or one '?' when it does not fit. */
  function Chunk(oracle: Oracle, bytes: seq<Byte>, capacity: nat): (r: seq<Byte>)
    ensures |r| <= capacity
  {
    if capacity == 0 then []
    else if |oracle(bytes)| > capacity then REPLACEMENT
    else oracle(bytes)
  }

  /** The decoder's state: the code page and at most one lead byte awaiting its trail. */
  class Context {
    var leadByte: Byte
    var state: int

    ghost predicate Valid()
      reads this
    {
      state == 0 || state == 1
    }

    ghost function Pending(): (p: Option<Byte>)
      reads this
    {
      if state == 0 then None else Some(leadByte)
    }

    constructor ()
      ensures Valid() && Pending() == None
    {
      leadByte, state := 0, 0;
    }

    /** session_codepage_dbcs_to_utf8 */
    method Push(codepage: Codepage, oracle: Oracle, b: Byte, capacity: nat) returns (output: seq<Byte>)
      requires Valid()
      modifies this
      ensures Valid()
      ensures (output, Pending()) == Step(codepage, oracle, capacity, old(Pending()), b)
      decreases state
    {
      if capacity == 0 {
        return [];
      }
      if state == 0 {
        if b < 0x80 {
          return [b];
        }
        if IsLead(codepage, b) {
          leadByte, state := b, 1;
          return [];
        }
        output := Chunk(oracle, [b], capacity);
        if |output| == 0 {
          output := REPLACEMENT;
        }
        return;
      }
      var chunk := [leadByte, b];
      leadByte, state := 0, 0;
      output := Chunk(oracle, chunk, capacity);
      if |output| > 0 {
        return;
      }
      var rest := Push(codepage, oracle, b, capacity - 1);
      output := REPLACEMENT + rest;
    }
  }

  /** Output and next pending lead byte for one input byte read with nothing pending. */
  function IdleStep(codepage: Codepage, oracle: Oracle, capacity: nat, b: Byte)
    : (r: (seq<Byte>, Option<Byte>))
    ensures r.1.Some? ==> r.1 == Some(b) && IsLead(codepage, b)
  {
    if capacity == 0 then ([], None)
    else if b < 0x80 then ([b], None)
    else if IsLead(codepage, b) then ([], Some(b))
    else
      var text := Chunk(oracle, [b], capacity);
      (if |text| == 0 then REPLACEMENT else text, None)
  }

  /** Output and next pending lead byte for one input byte. */
  function Step(codepage: Codepage, oracle: Oracle, capacity: nat, pending: Option<Byte>, b: Byte)
    : (r: (seq<Byte>, Option<Byte>))
    ensures r.1.Some? ==> r.1 == pending || IsLead(codepage, r.1.value)
  {
    if capacity == 0 then ([], pending)
    else if pending.None? then IdleStep(codepage, oracle, capacity, b)
    else
      var text := Chunk(oracle, [pending.value, b], capacity);
      if |text| > 0 then (text, None)
      else
        var (rest, next) := IdleStep(codepage, oracle, capacity - 1, b);
        (REPLACEMENT + rest, next)
  }

  /** The decoder run over a whole stream, from a given pending byte. */
  function Run(codepage: Codepage, oracle: Oracle, capacity: nat, pending: Option<Byte>, stream: seq<Byte>)
    : (r: (seq<Byte>, Option<Byte>))
    decreases |stream|
  {
    if stream == [] then ([], pending)
    else
      var (text, next) := Step(codepage, oracle, capacity, pending, stream[0]);
      var (rest, last) := Run(codepage, oracle, capacity, next, stream[1..]);
      (text + rest, last)
  }

  // ---- Reference: greedy segmentation of the stream ----

  datatype Segment =
    | Ascii(b: Byte)
    | Single(b: Byte)
    | Pair(lead: Byte, trail: Byte)
    | Rejected(lead: Byte)
    | Unfinished(lead: Byte)

  function Segments(codepage: Codepage, oracle: Oracle, stream: seq<Byte>): (r: seq<Segment>) {
    if stream == [] then []
    else if stream[0] < 0x80 then [Ascii(stream[0])] + Segments(codepage, oracle, stream[1..])
    else if !IsLead(codepage, stream[0]) then [Single(stream[0])] + Segments(codepage, oracle, stream[1..])
    else if |stream| == 1 then [Unfinished(stream[0])]
    else if oracle(stream[..2]) != [] then
      [Pair(stream[0], stream[1])] + Segments(codepage, oracle, stream[2..])
    else [Rejected(stream[0])] + Segments(codepage, oracle, stream[1..])
  }

  /** The input bytes a segment covers. */
  function Covered(segment: Segment): (r: seq<Byte>) {
    match segment
    case Pair(lead, trail) => [lead, trail]
    case Ascii(b) => [b]
    case Single(b) => [b]
    case Rejected(lead) => [lead]
    case Unfinished(lead) => [lead]
  }

  function SourceBytes(segments: seq<Segment>): (r: seq<Byte>) {
    if segments == [] then [] else Covered(segments[0]) + SourceBytes(segments[1..])
  }

  function Render(oracle: Oracle, segment: Segment): (r: seq<Byte>) {
    match segment
    case Ascii(b) => [b]
    case Single(b) => if oracle([b]) == [] then REPLACEMENT else oracle([b])
    case Pair(lead, trail) => oracle([lead, trail])
    case Rejected(_) => REPLACEMENT
    case Unfinished(_) => []
  }

  function RenderAll(oracle: Oracle, segments: seq<Segment>): (r: seq<Byte>) {
    if segments == [] then [] else Render(oracle, segments[0]) + RenderAll(oracle, segments[1..])
  }

  function LeftOver(segments: seq<Segment>): (p: Option<Byte>) {
    if segments != [] && segments[|segments| - 1].Unfinished? then Some(segments[|segments| - 1].lead) else None
  }

  function Reference(codepage: Codepage, oracle: Oracle, stream: seq<Byte>): (r: (seq<Byte>, Option<Byte>)) {
    var segments := Segments(codepage, oracle, stream);
    (RenderAll(oracle, segments), LeftOver(segments))
  }

  lemma FirstSegment(codepage: Codepage, oracle: Oracle, stream: seq<Byte>) returns (n: nat)
    requires stream != []
    ensures var segments := Segments(codepage, oracle, stream);
            && 1 <= n <= |stream| && segments != [] && Covered(segments[0]) == stream[..n]
            && segments[1..] == Segments(codepage, oracle, stream[n..])
            && (segments[0].Unfinished? ==> n == |stream|)
  {
    n := if Segments(codepage, oracle, stream)[0].Pair? then 2 else 1;
  }

  /** The segmentation keeps every input byte, in order, and only its last segment can be unfinished. */
  lemma {:induction false} SegmentsKeepStream(codepage: Codepage, oracle: Oracle, stream: seq<Byte>)
    ensures var segments := Segments(codepage, oracle, stream);
            && SourceBytes(segments) == stream
            && forall i :: 0 <= i < |segments| - 1 ==> !segments[i].Unfinished?
    decreases |stream|
  {
    if stream == [] {
    } else {
      var segments := Segments(codepage, oracle, stream);
      var n := FirstSegment(codepage, oracle, stream);
      SegmentsKeepStream(codepage, oracle, stream[n..]);
      assert stream == stream[..n] + stream[n..];
      forall i | 0 <= i < |segments| - 1
        ensures !segments[i].Unfinished?
      {
        if i > 0 {
          assert segments[i] == segments[1..][i - 1];
        }
      }
    }
  }

  /** Room one byte needs when it is read with no lead pending. */
  function Room(codepage: Codepage, oracle: Oracle, b: Byte): (n: nat) {
    if b >= 0x80 && !IsLead(codepage, b) && |oracle([b])| > 1 then |oracle([b])| else 1
  }

  /** Room for a lead byte's pair or, when the pair is refused, for a '?' and the second byte. */
  predicate PairFits(codepage: Codepage, oracle: Oracle, capacity: nat, l: Byte, t: Byte) {
    if oracle([l, t]) != [] then |oracle([l, t])| <= capacity else 1 + Room(codepage, oracle, t) <= capacity
  }

  /** The output buffer is large enough for everything a single call can have to write. */
  ghost predicate Adequate(codepage: Codepage, oracle: Oracle, capacity: nat) {
    && (forall b: Byte :: Room(codepage, oracle, b) <= capacity)
    && (forall l: Byte, t: Byte | IsLead(codepage, l) :: PairFits(codepage, oracle, capacity, l, t))
  }

  function WithPending(pending: Option<Byte>, stream: seq<Byte>): seq<Byte> {
    if pending.Some? then [pending.value] + stream else stream
  }

  /** Putting a segment in front of others. */
  lemma Prepend(oracle: Oracle, segment: Segment, rest: seq<Segment>)
    ensures RenderAll(oracle, [segment] + rest) == Render(oracle, segment) + RenderAll(oracle, rest)
    ensures !segment.Unfinished? ==> LeftOver([segment] + rest) == LeftOver(rest)
  {
  }

  /** Reading one byte with nothing pending takes exactly the room Room names. */
  lemma StepAlone(codepage: Codepage, oracle: Oracle, capacity: nat, b: Byte)
    requires Room(codepage, oracle, b) <= capacity
    ensures IdleStep(codepage, oracle, capacity, b) == Reference(codepage, oracle, [b])
  {
    assert [b][1..] == [];
    var segment := if b < 0x80 then Ascii(b) else if IsLead(codepage, b) then Unfinished(b) else Single(b);
    assert Segments(codepage, oracle, [b]) == [segment] + [];
    Prepend(oracle, segment, []);
    assert Render(oracle, segment) + [] == Render(oracle, segment);
  }

  lemma {:induction false} RunIsReference(codepage: Codepage, oracle: Oracle, capacity: nat,
                                          pending: Option<Byte>, stream: seq<Byte>)
    requires Adequate(codepage, oracle, capacity)
    requires pending.Some? ==> IsLead(codepage, pending.value)
    ensures Run(codepage, oracle, capacity, pending, stream)
         == Reference(codepage, oracle, WithPending(pending, stream))
    decreases |stream|
  {
    if stream == [] {
      if pending.Some? {
        assert RenderAll(oracle, [Unfinished(pending.value)]) == [];
      }
    } else {
      var b := stream[0];
      assert stream == [b] + stream[1..];
      var next := Step(codepage, oracle, capacity, pending, b).1;
      StepAlone(codepage, oracle, capacity, b);
      RunIsReference(codepage, oracle, capacity, next, stream[1..]);
      if pending.Some? {
        FromPending(codepage, oracle, capacity, pending.value, stream);
      } else {
        FromRest(codepage, oracle, capacity, stream);
      }
    }
  }

  lemma FromRest(codepage: Codepage, oracle: Oracle, capacity: nat, stream: seq<Byte>)
    requires stream != [] && Room(codepage, oracle, stream[0]) <= capacity
    ensures var (text, next) := IdleStep(codepage, oracle, capacity, stream[0]);
            var (rest, last) := Reference(codepage, oracle, WithPending(next, stream[1..]));
            Reference(codepage, oracle, stream) == (text + rest, last)
  {
    var b := stream[0];
    var rest := Segments(codepage, oracle, stream[1..]);
    if b < 0x80 {
      Prepend(oracle, Ascii(b), rest);
    } else if IsLead(codepage, b) {
      assert WithPending(Some(b), stream[1..]) == stream;
      var rendered := RenderAll(oracle, Segments(codepage, oracle, stream));
      assert [] + rendered == rendered;
    } else {
      Prepend(oracle, Single(b), rest);
    }
  }

  lemma FromPending(codepage: Codepage, oracle: Oracle, capacity: nat, lead: Byte, stream: seq<Byte>)
    requires IsLead(codepage, lead) && stream != [] && PairFits(codepage, oracle, capacity, lead, stream[0])
    ensures var (text, next) := Step(codepage, oracle, capacity, Some(lead), stream[0]);
            var (rest, last) := Reference(codepage, oracle, WithPending(next, stream[1..]));
            Reference(codepage, oracle, [lead] + stream) == (text + rest, last)
  {
    var whole := [lead] + stream;
    var b := stream[0];
    assert whole[..2] == [lead, b] && whole[2..] == stream[1..] && whole[1..] == stream;
    if oracle([lead, b]) != [] {
      Prepend(oracle, Pair(lead, b), Segments(codepage, oracle, stream[1..]));
    } else {
      Refused(codepage, oracle, capacity, lead, stream);
    }
  }

  lemma RefusedHead(codepage: Codepage, oracle: Oracle, lead: Byte, stream: seq<Byte>)
    requires IsLead(codepage, lead) && stream != [] && oracle([lead, stream[0]]) == []
    ensures var (rest, last) := Reference(codepage, oracle, stream);
            Reference(codepage, oracle, [lead] + stream) == (REPLACEMENT + rest, last)
  {
    var whole := [lead] + stream;
    assert whole[..2] == [lead, stream[0]] && whole[1..] == stream;
    Prepend(oracle, Rejected(lead), Segments(codepage, oracle, stream));
  }

  lemma Refused(codepage: Codepage, oracle: Oracle, capacity: nat, lead: Byte, stream: seq<Byte>)
    requires IsLead(codepage, lead) && stream != [] && PairFits(codepage, oracle, capacity, lead, stream[0])
    requires oracle([lead, stream[0]]) == []
    ensures var (text, next) := Step(codepage, oracle, capacity, Some(lead), stream[0]);
            var (rest, last) := Reference(codepage, oracle, WithPending(next, stream[1..]));
            Reference(codepage, oracle, [lead] + stream) == (text + rest, last)
  {
    RefusedHead(codepage, oracle, lead, stream);
    FromRest(codepage, oracle, capacity - 1, stream);
    var (text, next) := IdleStep(codepage, oracle, capacity - 1, stream[0]);
    var (rest, last) := Reference(codepage, oracle, WithPending(next, stream[1..]));
    Associate(REPLACEMENT, text, rest);
  }

  /** With too little room some stream of at most two bytes is already decoded wrongly. */
  lemma InadequateLoses(codepage: Codepage, oracle: Oracle, capacity: nat) returns (stream: seq<Byte>)
    requires !Adequate(codepage, oracle, capacity)
    ensures Run(codepage, oracle, capacity, None, stream) != Reference(codepage, oracle, stream)
  {
    if b: Byte :| Room(codepage, oracle, b) > capacity {
      stream := [b];
      FromRest(codepage, oracle, Room(codepage, oracle, b), stream);
      StepAlone(codepage, oracle, Room(codepage, oracle, b), b);
    } else {
      var l: Byte, t: Byte :| IsLead(codepage, l) && !PairFits(codepage, oracle, capacity, l, t);
      stream := [l, t];
      TwoBytes(codepage, oracle, capacity, l, t);
    }
  }

  lemma TwoBytes(codepage: Codepage, oracle: Oracle, capacity: nat, l: Byte, t: Byte)
    requires IsLead(codepage, l) && 1 <= Room(codepage, oracle, t) <= capacity
    requires !PairFits(codepage, oracle, capacity, l, t)
    ensures Run(codepage, oracle, capacity, None, [l, t]) != Reference(codepage, oracle, [l, t])
  {
    var stream := [l, t];
    assert stream[1..] == [t] && stream[..2] == [l, t] && stream[2..] == [];
    var (text, next) := Step(codepage, oracle, capacity, Some(l), t);
    assert Run(codepage, oracle, capacity, Some(l), [t]) == (text, next) by {
      assert [t][1..] == [] && text + [] == text;
    }
    assert [] + text == text;
    if oracle([l, t]) != [] {
      Prepend(oracle, Pair(l, t), []);
      assert |Reference(codepage, oracle, stream).0| > 1;
    } else {
      StepAlone(codepage, oracle, capacity, t);
      Prepend(oracle, Rejected(l), Segments(codepage, oracle, [t]));
      assert Reference(codepage, oracle, stream).1 == Reference(codepage, oracle, [t]).1;
      assert |Reference(codepage, oracle, stream).0| == 1 + |Reference(codepage, oracle, [t]).0|;
    }
  }

  /** The decoder emits exactly the rendering of the greedy segmentation, for every stream, if and
    * only if the buffer passed to each call is adequate for the conversion table in use. */
  lemma DecoderExact(codepage: Codepage, oracle: Oracle, capacity: nat)
    ensures Adequate(codepage, oracle, capacity) <==>
            forall stream :: Run(codepage, oracle, capacity, None, stream) == Reference(codepage, oracle, stream)
  {
    if Adequate(codepage, oracle, capacity) {
      forall stream
        ensures Run(codepage, oracle, capacity, None, stream) == Reference(codepage, oracle, stream)
      {
        RunIsReference(codepage, oracle, capacity, None, stream);
      }
    } else {
      var stream := InadequateLoses(codepage, oracle, capacity);
    }
  }

  /** The lead bytes: in CP932 two ranges, with ASCII, 0x80, 0xA0, the half-width katakana and 0xFD to 0xFF
    * outside; in CP949 and CP936 everything from 0x81 to 0xFE. */
  lemma LeadBytes(b: Byte)
    ensures IsLead(CP932, b) <==> !(b <= 0x80 || 0xA0 <= b <= 0xDF || b >= 0xFD)
    ensures IsLead(CP949, b) <==> !(b <= 0x80 || b == 0xFF)
    ensures IsLead(CP936, b) <==> !(b <= 0x80 || b == 0xFF)
  {
  }
}
