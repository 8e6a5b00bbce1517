// The event stream over a run's journal: src/cli/serve/runfiles.ts, `streamRunEventsSse`.
module SseStream {
  import opened Pieces
  import opened Utf8
  import opened JournalFollower

  datatype Flush = Flush(dirKnown: bool, poll: Poll)

  // One turn of the follow loop. `second` is the flush made when the run is terminal.
  datatype Tick = Tick(aborted: bool, first: Flush, terminal: bool, second: Flush, keepAliveDue: bool)

  datatype Sse = Data(line: Text) | KeepAlive | End

  function DataOf(out: seq<Sse>): seq<Text> {
    if out == [] then []
    else if out[0].Data? then [out[0].line] + DataOf(out[1..])
    else DataOf(out[1..])
  }

  lemma {:induction false} DataOfConcat(a: seq<Sse>, b: seq<Sse>)
    ensures DataOf(a + b) == DataOf(a) + DataOf(b)
  {
    if a == [] {
      assert a + b == b;
    } else {
      DataOfConcat(a[1..], b);
      assert (a + b)[1..] == a[1..] + b;
    }
  }

  function Frames(lines: seq<Text>): (r: seq<Sse>)
    ensures DataOf(r) == lines && End !in r && KeepAlive !in r
  {
    if lines == [] then [] else [Data(lines[0])] + Frames(lines[1..])
  }

  // The turn the stream stops at: the first one aborted or with the run terminal.
  function LastTick(ticks: seq<Tick>): (r: nat)
    ensures r <= |ticks|
  {
    if ticks == [] || ticks[0].aborted || ticks[0].terminal then 0 else 1 + LastTick(ticks[1..])
  }

  predicate Ends(ticks: seq<Tick>) {
    var k := LastTick(ticks); k < |ticks| && !ticks[k].aborted
  }

  // The flush sees the journal complete and every read brings something, however little.
  predicate SeesAll(f: Flush, journal: seq<Byte>) {
    f.dirKnown && f.poll.canOpen && f.poll.canStat && f.poll.size == |journal| && AllBring(f.poll.results)
  }

  // A turn that is not aborted and whose first flush sees it.
  predicate SeesJournal(t: Tick, journal: seq<Byte>) {
    !t.aborted && SeesAll(t.first, journal)
  }

  // Where the follower stands after a flush, and after the turns up to the one that ends the
  // stream.
  function AfterFlush(p: Pos, f: Flush): Pos {
    if f.dirKnown then AfterPoll(p, f.poll) else p
  }

  function AfterTicks(p: Pos, ticks: seq<Tick>): Pos
    decreases |ticks|
  {
    if ticks == [] || ticks[0].aborted then p
    else
      var first := AfterFlush(p, ticks[0].first);
      if ticks[0].terminal then AfterFlush(first, ticks[0].second) else AfterTicks(first, ticks[1..])
  }

  lemma OneTurn(p: Pos, ticks: seq<Tick>)
    ensures LastTick(ticks) ==
            if ticks == [] || ticks[0].aborted || ticks[0].terminal then 0 else 1 + LastTick(ticks[1..])
    ensures AfterTicks(p, ticks) ==
            if ticks == [] || ticks[0].aborted then p
            else if ticks[0].terminal then AfterFlush(AfterFlush(p, ticks[0].first), ticks[0].second)
            else AfterTicks(AfterFlush(p, ticks[0].first), ticks[1..])
  {
  }

  lemma SeesTheEnd(p: Pos, f: Flush, journal: seq<Byte>)
    requires SeesAll(f, journal) && p.offset <= |journal|
    ensures AfterFlush(p, f).offset == |journal|
  {
    if p.offset < |journal| { TakenWhole(f.poll.results, 0, |journal| - p.offset); }
  }

  predicate Within(ticks: seq<Tick>, journal: seq<Byte>) {
    forall t <- ticks :: t.first.poll.size <= |journal| && t.second.poll.size <= |journal|
  }

  method FlushNew(follower: Follower, journal: seq<Byte>, f: Flush) returns (out: seq<Sse>)
    requires follower.Follows(journal) && f.poll.size <= |journal|
    modifies follower
    ensures follower.Follows(journal)
    ensures follower.delivered == old(follower.delivered) + DataOf(out) && End !in out
    ensures Pos(follower.isOpen, follower.offset) == AfterFlush(Pos(old(follower.isOpen), old(follower.offset)), f)
    ensures old(follower.offset) <= follower.offset <= |journal|
    ensures SeesAll(f, journal) ==> follower.offset == |journal|
    ensures KeepAlive !in out
  {
    InReach(journal, follower.offset, follower.tail, follower.delivered, follower.cuts);
    if SeesAll(f, journal) { SeesTheEnd(Pos(follower.isOpen, follower.offset), f, journal); }
    if !f.dirKnown { return []; }
    var lines := follower.ReadNewLines(journal, f.poll);
    out := Frames(lines);
  }

  lemma NoData()
    ensures DataOf([]) == [] && DataOf([End]) == [] && DataOf([KeepAlive]) == []
  {
  }

  // The non-empty lines up to an offset are all there are exactly when none is left after it.
  lemma NothingLeft(journal: seq<Byte>, consumed: nat)
    requires consumed <= |journal|
    ensures NonEmpty(TextLines(journal[..consumed])) == NonEmpty(TextLines(journal)) <==>
            NonEmpty(NewLines(journal, consumed, |journal|)) == []
  {
    hide TextLines, NewLines, NonEmpty;
    NewLinesExtend(journal, consumed, |journal|);
    assert journal[..|journal|] == journal;
    NonEmptyConcat(TextLines(journal[..consumed]), NewLines(journal, consumed, |journal|));
  }

  // The turns after which a keep-alive is sent.
  function KeepAliveTurns(ticks: seq<Tick>, n: nat): set<nat>
    requires n <= |ticks|
  {
    set i | 0 <= i < n && ticks[i].keepAliveDue
  }

  function KeepAlives(out: seq<Sse>): nat {
    multiset(out)[KeepAlive]
  }

  lemma KeepAlivesConcat(a: seq<Sse>, b: seq<Sse>)
    ensures KeepAlives(a + b) == KeepAlives(a) + KeepAlives(b)
    ensures KeepAlive !in b ==> KeepAlives(b) == 0
    ensures KeepAlives([]) == 0 && KeepAlives([KeepAlive]) == 1
  {
    assert multiset(a + b) == multiset(a) + multiset(b);
  }

  lemma NoTurnYet(ticks: seq<Tick>)
    ensures |KeepAliveTurns(ticks, 0)| == 0 && KeepAlives([]) == 0
  {
  }

  lemma NextTurn(ticks: seq<Tick>, n: nat)
    requires n < |ticks|
    ensures |KeepAliveTurns(ticks, n + 1)| == |KeepAliveTurns(ticks, n)| + if ticks[n].keepAliveDue then 1 else 0
  {
    var own := if ticks[n].keepAliveDue then {n} else {};
    assert KeepAliveTurns(ticks, n + 1) == KeepAliveTurns(ticks, n) + own;
  }

  // The data sent are the non-empty lines of what was read, in order, once each, and what was
  // read is decided by the polls. They are all the journal has exactly when no non-empty line
  // is left after it, as when the last flush sees the complete journal. A stream that ends
  // sends exactly one end event, last.
  method StreamRunEvents(journal: seq<Byte>, ticks: seq<Tick>) returns (out: seq<Sse>, consumed: nat)
    requires Within(ticks, journal)
    ensures consumed == AfterTicks(Pos(false, 0), ticks).offset <= |journal|
    ensures NonEmpty(DataOf(out)) == NonEmpty(TextLines(journal[..consumed]))
    ensures if Ends(ticks) then |out| > 0 && out[|out| - 1] == End && End !in out[..|out| - 1] else End !in out
    ensures NonEmpty(DataOf(out)) == NonEmpty(TextLines(journal)) <==>
            NonEmpty(NewLines(journal, consumed, |journal|)) == []
    ensures Ends(ticks) && SeesAll(ticks[LastTick(ticks)].second, journal) ==>
              consumed == |journal| && NonEmpty(DataOf(out)) == NonEmpty(TextLines(journal))
    ensures forall i :: 0 <= i <= LastTick(ticks) && i < |ticks| && SeesJournal(ticks[i], journal) ==>
                          consumed == |journal|
    ensures KeepAlives(out) == |KeepAliveTurns(ticks, LastTick(ticks))|
  {
    hide LastTick, AfterTicks, KeepAlives, KeepAliveTurns, TextLines, NonEmpty, NewLines, Traced, DataOf, SeesAll;
    hide AfterFlush, AfterPoll;
    NoData();
    NoTurnYet(ticks);
    var follower := new Follower();
    out := [];
    var i := 0;
    assert ticks[0..] == ticks;
    while i < |ticks|
      invariant i <= |ticks| && fresh(follower)
      invariant follower.Follows(journal)
      invariant follower.delivered == DataOf(out) && End !in out
      invariant LastTick(ticks) == i + LastTick(ticks[i..])
      invariant KeepAlives(out) == |KeepAliveTurns(ticks, i)|
      invariant forall j :: 0 <= j < i && SeesAll(ticks[j].first, journal) ==> follower.offset == |journal|
      invariant AfterTicks(Pos(false, 0), ticks) == AfterTicks(Pos(follower.isOpen, follower.offset), ticks[i..])
    {
      var t := ticks[i];
      assert t in ticks && ticks[i..][0] == t && ticks[i..][1..] == ticks[i + 1..];
      OneTurn(Pos(follower.isOpen, follower.offset), ticks[i..]);
      InReach(journal, follower.offset, follower.tail, follower.delivered, follower.cuts);
      if t.aborted {
        NothingLeft(journal, follower.offset);
        consumed := follower.offset;
        follower.Close();
        return;
      }
      var sent := FlushNew(follower, journal, t.first);
      DataOfConcat(out, sent);
      KeepAlivesConcat(out, sent);
      out := out + sent;
      if t.terminal {
        sent := FlushNew(follower, journal, t.second);
        DataOfConcat(out, sent);
        KeepAlivesConcat(out, sent);
        out := out + sent;
        DataOfConcat(out, [End]);
        KeepAlivesConcat(out, [End]);
        InReach(journal, follower.offset, follower.tail, follower.delivered, follower.cuts);
        NothingLeft(journal, follower.offset);
        assert DataOf(out + [End]) == DataOf(out);
        consumed := follower.offset;
        follower.Close();
        assert journal[..|journal|] == journal;
        assert (out + [End])[..|out|] == out;
        return out + [End], consumed;
      }
      if t.keepAliveDue {
        DataOfConcat(out, [KeepAlive]);
        KeepAlivesConcat(out, [KeepAlive]);
        out := out + [KeepAlive];
      }
      NextTurn(ticks, i);
      i := i + 1;
    }
    OneTurn(Pos(follower.isOpen, follower.offset), ticks[i..]);
    InReach(journal, follower.offset, follower.tail, follower.delivered, follower.cuts);
    NothingLeft(journal, follower.offset);
    consumed := follower.offset;
  }

  // A stream may end without a line of a journal that has no empty one: when the run turns
  // terminal and neither of the last two flushes can stat the file.
  lemma LineLeftBehind(line: Byte)
    requires line != LF
    ensures var journal, blind := [line, LF], Flush(true, Poll(true, false, 0, []));
            var ticks := [Tick(false, blind, true, blind, false)];
            Within(ticks, journal) && Ends(ticks) && AfterTicks(Pos(false, 0), ticks).offset == 0 &&
            [] !in TextLines(journal) && NonEmpty(NewLines(journal, 0, |journal|)) == TextLines(journal) != []
  {
    var journal: seq<Byte> := [line, LF];
    var one: seq<Byte> := [line];
    SplitAt<Byte>(one, LF, []);
    SplitNone<Byte>(one, LF);
    assert one + [LF] + [] == journal;
    assert Complete(journal) == [one];
    DecodeNonEmpty(IDLE, one);
    assert journal[..0] == [] && journal[0..|journal|] == journal;
    assert Tail([]) == [] by { SplitNone<Byte>([], LF); }
    assert [] + journal == journal;
    var text := Decode(one);
    assert DecodeAll([one])[1..] == [];
    assert TextLines(journal) == [text];
    assert [text][1..] == [] && NonEmpty([text]) == [text];
  }
}
