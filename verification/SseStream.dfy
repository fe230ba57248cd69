/**
 * The incremental reader of a server-sent event stream: decoded text arrives in arbitrary pieces, a
 * buffer keeps what is not yet a whole frame. This is the LF, `data: ` subset of WHATWG HTML,
 * sections 9.2.5 and 9.2.6. JSON parsing is a parameter.
 */
module SseStream {
  import opened Wrappers
  import opened Basics

  /** A parsed payload, or the payload itself when it is no JSON. */
  datatype Chunk<J> = Parsed(json: J) | Garbage(payload: string)

  const DATA := "data: "
  const DONE := "[DONE]"

  // ----- Frames -----

  predicate EndsAt(s: string, i: nat) {
    i + 1 < |s| && s[i] == '\n' && s[i + 1] == '\n'
  }

  /** Index of the first blank line, |s| if there is none. */
  function IndexOf(s: string): (i: nat)
    ensures i <= |s| && (i < |s| ==> EndsAt(s, i))
  {
    if s == "" || EndsAt(s, 0) then 0 else 1 + IndexOf(s[1..])
  }

  lemma {:induction false} IndexOfIsFirst(s: string, j: nat)
    requires j < IndexOf(s)
    ensures !EndsAt(s, j)
  {
    if j > 0 {
      IndexOfIsFirst(s[1..], j - 1);
    }
  }

  lemma {:induction false} IndexOfAppend(s: string, t: string)
    requires IndexOf(s) < |s|
    ensures IndexOf(s + t) == IndexOf(s)
  {
    if !EndsAt(s, 0) {
      assert (s + t)[1..] == s[1..] + t;
      IndexOfAppend(s[1..], t);
    }
  }

  // ----- Lines and chunks -----

  function Lines(s: string): (lines: seq<string>)
    ensures lines != []
  {
    if s == "" then [""]
    else
      var lines := Lines(s[1..]);
      if s[0] == '\n' then [""] + lines else [[s[0]] + lines[0]] + lines[1..]
  }

  function ChunkOf<J>(payload: string, parse: string -> Option<J>): Chunk<J> {
    var json := parse(payload);
    if json.Some? then Parsed(json.value) else Garbage(payload)
  }

  function LineChunks<J>(line: string, parse: string -> Option<J>): seq<Chunk<J>> {
    if DATA <= line && line[|DATA|..] != DONE then [ChunkOf(line[|DATA|..], parse)] else []
  }

  function ChunksOfLines<J>(lines: seq<string>, parse: string -> Option<J>): seq<Chunk<J>> {
    if lines == [] then [] else LineChunks(lines[0], parse) + ChunksOfLines(lines[1..], parse)
  }

  /** What the reader holds: text that is no whole frame yet, and the chunks so far. */
  datatype Reading<J> = Reading(buf: string, chunks: seq<Chunk<J>>)

  /** Take the first whole frame off the buffer. */
  function Next<J>(r: Reading<J>, parse: string -> Option<J>): (n: Reading<J>)
    requires IndexOf(r.buf) < |r.buf|
    ensures |n.buf| < |r.buf|
  {
    var i := IndexOf(r.buf);
    Reading(r.buf[i + 2..], r.chunks + ChunksOfLines(Lines(r.buf[..i]), parse))
  }

  /** Take all of them. */
  function Drain<J>(r: Reading<J>, parse: string -> Option<J>): (d: Reading<J>)
    ensures IndexOf(d.buf) == |d.buf|
    decreases |r.buf|
  {
    if IndexOf(r.buf) == |r.buf| then r else Drain(Next(r, parse), parse)
  }

  function Take<J>(r: Reading<J>, piece: string, parse: string -> Option<J>): (d: Reading<J>)
    ensures IndexOf(d.buf) == |d.buf|
  {
    Drain(Reading(r.buf + piece, r.chunks), parse)
  }

  lemma NextAppend<J>(r: Reading<J>, t: string, parse: string -> Option<J>)
    requires IndexOf(r.buf) < |r.buf|
    ensures IndexOf(r.buf + t) == IndexOf(r.buf)
    ensures Next(Reading(r.buf + t, r.chunks), parse) == Reading(Next(r, parse).buf + t, Next(r, parse).chunks)
  {
    var s, i := r.buf, IndexOf(r.buf);
    IndexOfAppend(s, t);
    assert (s + t)[..i] == s[..i] && (s + t)[i + 2..] == s[i + 2..] + t;
  }

  /** Handling what is whole before more text arrives gives what handling all at once does. */
  lemma {:induction false} DrainAppend<J>(r: Reading<J>, t: string, parse: string -> Option<J>)
    ensures Drain(Reading(r.buf + t, r.chunks), parse) == Take(Drain(r, parse), t, parse)
    decreases |r.buf|
  {
    if IndexOf(r.buf) < |r.buf| {
      NextAppend(r, t, parse);
      DrainAppend(Next(r, parse), t, parse);
    }
  }

  lemma TakeTwice<J>(r: Reading<J>, a: string, b: string, parse: string -> Option<J>)
    ensures Take(r, a + b, parse) == Take(Take(r, a, parse), b, parse)
  {
    Assoc(r.buf, a, b);
    DrainAppend(Reading(r.buf + a, r.chunks), b, parse);
  }

  function Concat(pieces: seq<string>): string {
    if pieces == [] then "" else pieces[0] + Concat(pieces[1..])
  }

  lemma {:induction false} ConcatSnoc(pieces: seq<string>, k: nat)
    requires k < |pieces|
    ensures Concat(pieces[..k + 1]) == Concat(pieces[..k]) + pieces[k]
  {
    if k == 0 {
      assert pieces[..1] == [pieces[0]] && [pieces[0]][1..] == [];
    } else {
      var tail := pieces[1..];
      assert pieces[..k + 1][1..] == tail[..k] && pieces[..k][1..] == tail[..k - 1];
      ConcatSnoc(tail, k - 1);
    }
  }

  // ----- The reader -----

  class Handle<J(!new)> {
    const parse: string -> Option<J>
    var text: string
    var chunks: seq<Chunk<J>>
    var buf: string

    constructor (parse: string -> Option<J>)
      ensures this.parse == parse && text == "" && Reading(buf, chunks) == Reading("", [])
    {
      this.parse := parse;
      text, chunks, buf := "", [], "";
    }

    /** One piece of decoded text: append it, then take whole frames off the front of the buffer. */
    method Feed(piece: string)
      modifies this
      ensures text == old(text) + piece
      ensures Reading(buf, chunks) == Take(old(Reading(buf, chunks)), piece, parse)
    {
      text := text + piece;
      buf := buf + piece;
      ghost var drained := Drain(Reading(buf, chunks), parse);
      var idx := IndexOf(buf);
      while idx < |buf|
        invariant idx == IndexOf(buf)
        invariant text == old(text) + piece
        invariant Drain(Reading(buf, chunks), parse) == drained
        decreases |buf|
      {
        ghost var next := Next(Reading(buf, chunks), parse);
        var frame := buf[..idx];
        buf := buf[idx + 2..];
        TakeFrame(frame);
        assert Reading(buf, chunks) == next;
        idx := IndexOf(buf);
      }
    }

    method TakeFrame(frame: string)
      modifies `chunks
      ensures chunks == old(chunks) + ChunksOfLines(Lines(frame), parse)
    {
      var lines := Lines(frame);
      for k := 0 to |lines|
        invariant chunks + ChunksOfLines(lines[k..], parse) == old(chunks) + ChunksOfLines(lines, parse)
      {
        assert lines[k..][0] == lines[k] && lines[k..][1..] == lines[k + 1..];
        Assoc(chunks, LineChunks(lines[k], parse), ChunksOfLines(lines[k + 1..], parse));
        assert chunks + [] == chunks;
        if DATA <= lines[k] {
          var payload := lines[k][|DATA|..];
          if payload != DONE {
            chunks := chunks + [ChunkOf(payload, parse)];
          }
        }
      }
    }

    /** The read loop; `flushed` is what the decoder still holds at the end, appended to the buffer only. */
    method Read(pieces: seq<string>, flushed: string)
      requires text == "" && chunks == [] && buf == ""
      modifies this
      ensures text == Concat(pieces)
      ensures var whole := Take(Reading("", []), Concat(pieces), parse);
              chunks == whole.chunks && buf == whole.buf + flushed
    {
      NothingTaken(Reading("", []), parse);
      for k := 0 to |pieces|
        invariant text == Concat(pieces[..k])
        invariant Reading(buf, chunks) == Take(Reading("", []), text, parse)
      {
        ConcatSnoc(pieces, k);
        TakeTwice(Reading("", []), text, pieces[k], parse);
        Feed(pieces[k]);
      }
      assert pieces[..|pieces|] == pieces;
      buf := buf + flushed;
    }
  }

  // ----- Any cutting gives the same -----

  lemma NothingTaken<J>(r: Reading<J>, parse: string -> Option<J>)
    requires IndexOf(r.buf) == |r.buf|
    ensures Take(r, "", parse) == r
  {
    assert r.buf + "" == r.buf;
  }

  /** The reader after some pieces. */
  function Fed<J>(r: Reading<J>, pieces: seq<string>, parse: string -> Option<J>): Reading<J>
    decreases |pieces|
  {
    if pieces == [] then r else Fed(Take(r, pieces[0], parse), pieces[1..], parse)
  }

  lemma {:induction false} FedIsOneShot<J>(r: Reading<J>, pieces: seq<string>, parse: string -> Option<J>)
    requires IndexOf(r.buf) == |r.buf|
    ensures Fed(r, pieces, parse) == Take(r, Concat(pieces), parse)
    decreases |pieces|
  {
    if pieces == [] {
      NothingTaken(r, parse);
    } else {
      FedIsOneShot(Take(r, pieces[0], parse), pieces[1..], parse);
      TakeTwice(r, pieces[0], Concat(pieces[1..]), parse);
    }
  }

  /** Two ways of cutting one text into pieces give the same chunks and the same leftover, with no frame in it. */
  lemma CuttingIsInvisible<J>(p: seq<string>, q: seq<string>, parse: string -> Option<J>)
    requires Concat(p) == Concat(q)
    ensures Fed(Reading("", []), p, parse) == Fed(Reading("", []), q, parse)
    ensures forall i: nat :: !EndsAt(Fed(Reading("", []), p, parse).buf, i)
  {
    FedIsOneShot(Reading("", []), p, parse);
    FedIsOneShot(Reading("", []), q, parse);
    var left := Take(Reading("", []), Concat(p), parse).buf;
    forall i: nat ensures !EndsAt(left, i) {
      if i < |left| {
        IndexOfIsFirst(left, i);
      }
    }
  }

  // ----- Reading back what a server writes -----

  /** One line of an event: a payload, or any other line such as a comment or an event name. */
  datatype Line = Data(payload: string) | Other(line: string)

  function LineText(l: Line): string {
    match l
    case Data(payload) => "data: " + payload
    case Other(line) => line
  }

  predicate OneLine(s: string) {
    forall i | 0 <= i < |s| :: s[i] != '\n'
  }

  predicate ValidLine(l: Line) {
    match l
    case Data(payload) => OneLine(payload)
    case Other(line) => line != "" && OneLine(line) && !(DATA <= line)
  }

  predicate ValidEvent(e: seq<Line>) {
    e != [] && forall l | l in e :: ValidLine(l)
  }

  function EventText(e: seq<Line>): string {
    if e == [] then ""
    else if |e| == 1 then LineText(e[0])
    else LineText(e[0]) + "\n" + EventText(e[1..])
  }

  function StreamText(events: seq<seq<Line>>): string {
    if events == [] then "" else EventText(events[0]) + "\n\n" + StreamText(events[1..])
  }

  /** The payloads of an event, in order, the end mark left out. */
  function Payloads(e: seq<Line>): seq<string> {
    if e == [] then []
    else (if e[0].Data? && e[0].payload != "[DONE]" then [e[0].payload] else []) + Payloads(e[1..])
  }

  function AllPayloads(events: seq<seq<Line>>): seq<string> {
    if events == [] then [] else Payloads(events[0]) + AllPayloads(events[1..])
  }

  /** The payloads stand in the order of their lines; every line has at most its own. */
  lemma {:induction false} PayloadsInOrder(l: Line, a: seq<Line>, b: seq<Line>)
    ensures Payloads([]) == []
    ensures Payloads([l]) == if l.Data? && l.payload != "[DONE]" then [l.payload] else []
    ensures Payloads(a + b) == Payloads(a) + Payloads(b)
  {
    assert [l][1..] == [];
    if a == [] {
      assert a + b == b;
    } else {
      assert (a + b)[1..] == a[1..] + b;
      PayloadsInOrder(l, a[1..], b);
      var first := if a[0].Data? && a[0].payload != "[DONE]" then [a[0].payload] else [];
      Assoc(first, Payloads(a[1..]), Payloads(b));
    }
  }

  function Chunks<J>(payloads: seq<string>, parse: string -> Option<J>): seq<Chunk<J>> {
    seq(|payloads|, i requires 0 <= i < |payloads| => ChunkOf(payloads[i], parse))
  }

  lemma {:induction false} LinesOfLine(s: string, rest: string)
    requires OneLine(s)
    ensures Lines(s) == [s] && Lines(s + "\n" + rest) == [s] + Lines(rest)
  {
    var t := s + "\n" + rest;
    if s == "" {
      assert t[1..] == rest;
    } else {
      assert t[1..] == s[1..] + "\n" + rest;
      LinesOfLine(s[1..], rest);
      assert [s[0]] + s[1..] == s;
      assert ([s[1..]] + Lines(rest))[1..] == Lines(rest);
    }
  }

  lemma LineTextIsOneLine(l: Line)
    requires ValidLine(l)
    ensures LineText(l) != "" && OneLine(LineText(l))
  {
    if l.Data? {
      assert forall i | 0 <= i < |DATA| :: DATA[i] != '\n';
    }
  }

  function LineTexts(e: seq<Line>): seq<string> {
    seq(|e|, i requires 0 <= i < |e| => LineText(e[i]))
  }

  lemma {:induction false} LinesOfEvent(e: seq<Line>)
    requires ValidEvent(e)
    ensures Lines(EventText(e)) == LineTexts(e)
  {
    assert ValidLine(e[0]);
    LineTextIsOneLine(e[0]);
    if |e| == 1 {
      LinesOfLine(LineText(e[0]), "");
    } else {
      LinesOfEvent(e[1..]);
      LinesOfLine(LineText(e[0]), EventText(e[1..]));
      assert LineTexts(e) == [LineText(e[0])] + LineTexts(e[1..]);
    }
  }

  lemma {:induction false} IndexBehindLine(line: string, k: string)
    requires OneLine(line)
    ensures IndexOf(line + k) == |line| + IndexOf(k)
  {
    if line == "" {
      assert line + k == k;
    } else {
      assert (line + k)[1..] == line[1..] + k && (line + k)[0] == line[0];
      IndexBehindLine(line[1..], k);
    }
  }

  lemma TextStarts(line: string, t: string)
    requires line != "" && OneLine(line)
    ensures line + t != "" && (line + t)[0] != '\n'
  {
  }

  /** A line break that another line follows ends no frame. */
  lemma IndexBehindBreak(line: string, t: string)
    requires OneLine(line) && t != "" && t[0] != '\n'
    ensures IndexOf(line + ("\n" + t)) == |line| + 1 + IndexOf(t)
  {
    var k := "\n" + t;
    assert k[1..] == t && k[1] != '\n';
    IndexBehindLine(line, k);
  }

  /** No blank line inside an event, also not across its end. */
  lemma {:induction false} EventHasNoFrameEnd(e: seq<Line>, rest: string)
    requires ValidEvent(e)
    ensures IndexOf(EventText(e) + ("\n\n" + rest)) == |EventText(e)|
    ensures EventText(e) != "" && EventText(e)[0] != '\n'
  {
    var line, tail := LineText(e[0]), "\n\n" + rest;
    assert ValidLine(e[0]);
    LineTextIsOneLine(e[0]);
    if |e| == 1 {
      assert EndsAt(tail, 0);
      IndexBehindLine(line, tail);
    } else {
      var t := EventText(e[1..]);
      EventHasNoFrameEnd(e[1..], rest);
      IndexBehindBreak(line, t + tail);
      TextStarts(line, "\n" + t);
      Assoc(line, "\n", t);
      Assoc(line, "\n" + t, tail);
      Assoc("\n", t, tail);
    }
  }

  lemma ChunksSplit<J>(a: seq<string>, b: seq<string>, parse: string -> Option<J>)
    ensures Chunks(a + b, parse) == Chunks(a, parse) + Chunks(b, parse)
  {
  }

  lemma LineGivesItsPayload<J>(l: Line, parse: string -> Option<J>)
    requires ValidLine(l)
    ensures LineChunks(LineText(l), parse)
         == Chunks(if l.Data? && l.payload != "[DONE]" then [l.payload] else [], parse)
  {
    if l.Data? {
      assert LineText(l)[|DATA|..] == l.payload;
    }
  }

  lemma {:induction false} ChunksOfEvent<J>(e: seq<Line>, parse: string -> Option<J>)
    requires forall l | l in e :: ValidLine(l)
    ensures ChunksOfLines(LineTexts(e), parse) == Chunks(Payloads(e), parse)
  {
    if e != [] {
      ChunksOfEvent(e[1..], parse);
      assert LineTexts(e)[1..] == LineTexts(e[1..]);
      LineGivesItsPayload(e[0], parse);
      ChunksSplit(if e[0].Data? && e[0].payload != "[DONE]" then [e[0].payload] else [], Payloads(e[1..]), parse);
    }
  }

  /** A valid event at the front is taken as one frame and gives its payloads. */
  lemma EventIsOneFrame<J>(e: seq<Line>, rest: string, acc: seq<Chunk<J>>, parse: string -> Option<J>)
    requires ValidEvent(e)
    ensures Drain(Reading(EventText(e) + "\n\n" + rest, acc), parse)
         == Drain(Reading(rest, acc + Chunks(Payloads(e), parse)), parse)
  {
    var t := EventText(e);
    var s := t + "\n\n" + rest;
    EventHasNoFrameEnd(e, rest);
    assert s == t + ("\n\n" + rest);
    assert s[..|t|] == t && s[|t| + 2..] == rest;
    LinesOfEvent(e);
    ChunksOfEvent(e, parse);
  }

  lemma {:induction false} StreamDrains<J>(events: seq<seq<Line>>, acc: seq<Chunk<J>>, parse: string -> Option<J>)
    requires forall e | e in events :: ValidEvent(e)
    ensures Drain(Reading(StreamText(events), acc), parse) == Reading("", acc + Chunks(AllPayloads(events), parse))
    decreases |events|
  {
    if events == [] {
      assert acc + [] == acc;
    } else {
      var now, later := Payloads(events[0]), AllPayloads(events[1..]);
      EventIsOneFrame(events[0], StreamText(events[1..]), acc, parse);
      StreamDrains(events[1..], acc + Chunks(now, parse), parse);
      ChunksSplit(now, later, parse);
      Assoc(acc, Chunks(now, parse), Chunks(later, parse));
    }
  }

  lemma CutStreamIsTaken<J>(events: seq<seq<Line>>, pieces: seq<string>, parse: string -> Option<J>)
    requires forall e | e in events :: ValidEvent(e)
    requires Concat(pieces) == StreamText(events)
    ensures Fed(Reading("", []), pieces, parse) == Reading("", Chunks(AllPayloads(events), parse))
  {
    var s := StreamText(events);
    FedIsOneShot(Reading("", []), pieces, parse);
    StreamDrains(events, [], parse);
    assert "" + s == s;
  }

  /**
   * However a stream of valid events is cut, the reader ends with exactly its payloads, in order,
   * parsed where they are JSON and as they are where not, and an empty buffer.
   */
  lemma CutStreamReadsBack<J>(events: seq<seq<Line>>, pieces: seq<string>, parse: string -> Option<J>)
    requires forall e | e in events :: ValidEvent(e)
    requires Concat(pieces) == StreamText(events)
    ensures var r, payloads := Fed(Reading("", []), pieces, parse), AllPayloads(events);
            && r.buf == "" && |r.chunks| == |payloads|
            && forall i | 0 <= i < |payloads| ::
                 r.chunks[i] == if parse(payloads[i]).Some? then Parsed(parse(payloads[i]).value)
                                else Garbage(payloads[i])
  {
    CutStreamIsTaken(events, pieces, parse);
  }
}
