// Following an append-only journal and streaming its lines: src/cli/serve/runfiles.ts.
//
// `journal` stands for the bytes the file will hold in the end; what a poll can see of an
// append-only file is a prefix of it, `poll.size` bytes long.
module JournalFollower {
  import opened Pieces
  import opened Utf8

  // How one `readSync` ends: some bytes (none at the end of the file), or an exception.
  datatype Read = Got(n: nat) | Failed

  // One poll: can the file be isOpen and stat-ed, which size does it report, and how do the
  // reads end. Reads beyond the listed ones return all that was asked for.
  datatype Poll = Poll(canOpen: bool, canStat: bool, size: nat, results: seq<Read>)

  // ----- specification -----

  function Complete(bytes: seq<Byte>): seq<seq<Byte>> {
    var p := Split<Byte>(bytes, LF); p[..|p| - 1]
  }

  function Tail(bytes: seq<Byte>): seq<Byte> {
    var p := Split<Byte>(bytes, LF); p[|p| - 1]
  }

  // The decoded newline-terminated lines of a byte sequence.
  function TextLines(bytes: seq<Byte>): seq<Text> {
    DecodeAll(Complete(bytes))
  }

  function NonEmpty(lines: seq<Text>): seq<Text> {
    if lines == [] then []
    else if lines[0] == [] then NonEmpty(lines[1..])
    else [lines[0]] + NonEmpty(lines[1..])
  }

  // Bytes one poll reads out of the `want` it asks for, or -1 when a read throws.
  function Taken(results: seq<Read>, read: nat, want: nat): (r: int)
    requires read <= want
    ensures r == -1 || read <= r <= want
    decreases |results|
  {
    if read == want || results == [] then want
    else
      match results[0]
      case Failed => -1
      case Got(n) =>
        if n == 0 then read
        else Taken(results[1..], if read + n <= want then read + n else want, want)
  }

  function Consumed(isOpen: bool, offset: nat, poll: Poll): (r: nat)
    ensures r > 0 ==> offset + r <= poll.size
  {
    if !(isOpen || poll.canOpen) || !poll.canStat || poll.size <= offset then 0
    else
      var t := Taken(poll.results, 0, poll.size - offset);
      if t < 0 then 0 else t
  }

  // Where a follower stands: whether it holds the file open, and the bytes it has read.
  datatype Pos = Pos(isOpen: bool, offset: nat)

  function AfterPoll(p: Pos, poll: Poll): Pos {
    Pos(p.isOpen || poll.canOpen, p.offset + Consumed(p.isOpen, p.offset, poll))
  }

  // Reads that bring something each, however little, bring everything that was asked for.
  predicate AllBring(results: seq<Read>) {
    forall r <- results :: r.Got? && r.n > 0
  }

  lemma {:induction false} TakenWhole(results: seq<Read>, read: nat, want: nat)
    requires read <= want && AllBring(results)
    ensures Taken(results, read, want) == want
    decreases |results|
  {
    if read < want && results != [] {
      assert results[0] in results;
      TakenWhole(results[1..], if read + results[0].n <= want then read + results[0].n else want, want);
    }
  }

  // ----- what the reads of a poll bring -----

  function Brought(results: seq<Read>): nat {
    if results == [] then 0 else (if results[0].Got? then results[0].n else 0) + Brought(results[1..])
  }

  // Read `k` is the first that ends the loop: the reads before it each bring something and
  // leave something to ask for.
  predicate StopsAt(results: seq<Read>, want: int, k: nat) {
    && k <= |results|
    && (forall i :: 0 <= i < k ==> results[i].Got? && results[i].n > 0 && Brought(results[..i]) < want)
    && (Brought(results[..k]) >= want || k == |results| || results[k].Failed? || results[k].n == 0)
  }

  // All of it, nothing after an exception, or what came before the end of the file.
  function Outcome(results: seq<Read>, want: int, k: nat): int
    requires k <= |results|
  {
    if Brought(results[..k]) >= want || k == |results| then want
    else if results[k].Failed? then -1
    else Brought(results[..k])
  }

  lemma BroughtFirst(results: seq<Read>, k: nat)
    requires 0 < k <= |results| && results[0].Got?
    ensures Brought(results[..k]) == results[0].n + Brought(results[1..][..k - 1])
  {
    assert results[..k][1..] == results[1..][..k - 1];
  }

  lemma {:induction false} TakenStops(results: seq<Read>, read: nat, want: nat) returns (k: nat)
    requires read <= want
    ensures StopsAt(results, want - read, k)
    ensures var o, t := Outcome(results, want - read, k), Taken(results, read, want);
            if o < 0 then t == -1 else t == read + o
    decreases |results|
  {
    if read == want || results == [] || results[0].Failed? || results[0].n == 0 {
      k := 0;
      assert results[..0] == [];
    } else {
      var n := results[0].n;
      if read + n >= want {
        k := 1;
        BroughtFirst(results, 1);
      } else {
        k := TakenStops(results[1..], read + n, want);
        k := k + 1;
        BroughtFirst(results, k);
        forall i | 0 < i < k ensures Brought(results[..i]) < want - read {
          BroughtFirst(results, i);
          assert results[i] == results[1..][i - 1];
        }
      }
    }
  }

  lemma StopsOnce(results: seq<Read>, want: int, j: nat, k: nat)
    requires StopsAt(results, want, j) && StopsAt(results, want, k)
    ensures j >= k
  {
  }

  // What a poll takes is decided by the first read that ends the loop.
  lemma TakenExactly(results: seq<Read>, want: nat, t: int)
    ensures Taken(results, 0, want) == t <==>
            exists k: nat :: StopsAt(results, want, k) && t == Outcome(results, want, k)
  {
    var k := TakenStops(results, 0, want);
    if j: nat :| StopsAt(results, want, j) && t == Outcome(results, want, j) {
      StopsOnce(results, want, j, k);
      StopsOnce(results, want, k, j);
    }
  }

  // A poll moves the follower by that much, if it can open and stat the file.
  lemma PollExactly(p: Pos, poll: Poll, k: nat)
    requires poll.size > p.offset && StopsAt(poll.results, poll.size - p.offset, k)
    ensures var o := Outcome(poll.results, poll.size - p.offset, k);
            AfterPoll(p, poll) == Pos(p.isOpen || poll.canOpen,
                                      if (p.isOpen || poll.canOpen) && poll.canStat && o >= 0 then p.offset + o
                                      else p.offset)
    ensures forall smaller: Poll :: smaller.size <= p.offset ==> AfterPoll(p, smaller).offset == p.offset
  {
    var o := Outcome(poll.results, poll.size - p.offset, k);
    TakenExactly(poll.results, poll.size - p.offset, o);
  }

  // ----- lemmas -----

  lemma LastLf(bytes: seq<Byte>, i: nat)
    requires i < |bytes| && bytes[i] == LF && LF !in bytes[i + 1..]
    ensures Complete(bytes) == Split<Byte>(bytes[..i], LF) && Tail(bytes) == bytes[i + 1..]
  {
    assert bytes == bytes[..i] + [LF] + bytes[i + 1..];
    SplitAt<Byte>(bytes[..i], LF, bytes[i + 1..]);
    SplitNone<Byte>(bytes[i + 1..], LF);
  }

  lemma {:induction false} FindLastLf(bytes: seq<Byte>) returns (i: nat)
    requires LF in bytes
    ensures i < |bytes| && bytes[i] == LF && LF !in bytes[i + 1..]
    decreases |bytes|
  {
    var n := |bytes| - 1;
    if bytes[n] == LF {
      i := n;
    } else {
      assert bytes == bytes[..n] + [bytes[n]];
      i := FindLastLf(bytes[..n]);
      assert bytes[i + 1..] == bytes[..n][i + 1..] + [bytes[n]];
    }
  }

  // Lines and tail of a longer prefix, from the tail of a shorter one.
  lemma Extend(a: seq<Byte>, c: seq<Byte>)
    ensures Complete(a + c) == Complete(a) + Complete(Tail(a) + c)
    ensures Tail(a + c) == Tail(Tail(a) + c)
  {
    if LF in a {
      var i := FindLastLf(a);
      LastLf(a, i);
      assert a + c == a[..i] + [LF] + (a[i + 1..] + c);
      SplitAt<Byte>(a[..i], LF, a[i + 1..] + c);
    } else {
      SplitNone<Byte>(a, LF);
    }
  }

  lemma {:induction false} NonEmptyConcat(a: seq<Text>, b: seq<Text>)
    ensures NonEmpty(a + b) == NonEmpty(a) + NonEmpty(b)
  {
    if a == [] {
      assert a + b == b;
    } else {
      var x, y, z := [a[0]], NonEmpty(a[1..]), NonEmpty(b);
      NonEmptyConcat(a[1..], b);
      assert (a + b)[0] == a[0] && (a + b)[1..] == a[1..] + b;
      assert x + (y + z) == (x + y) + z;
    }
  }

  // The lines completed by the bytes between two offsets.
  function NewLines(journal: seq<Byte>, from: nat, to: nat): seq<Text>
    requires from <= to <= |journal|
  {
    DecodeAll(Complete(Tail(journal[..from]) + journal[from..to]))
  }

  lemma NewLinesExtend(journal: seq<Byte>, from: nat, to: nat)
    requires from <= to <= |journal|
    ensures TextLines(journal[..to]) == TextLines(journal[..from]) + NewLines(journal, from, to)
    ensures Tail(journal[..to]) == Tail(Tail(journal[..from]) + journal[from..to])
  {
    assert journal[..to] == journal[..from] + journal[from..to];
    Extend(journal[..from], journal[from..to]);
    DecodeAllConcat(Complete(journal[..from]), Complete(Tail(journal[..from]) + journal[from..to]));
  }

  // ----- schedules of polls -----

  // What one poll delivers of the lines its bytes complete: a lone empty line is lost.
  function PollLines(journal: seq<Byte>, from: nat, to: nat): seq<Text>
    requires from <= to <= |journal|
  {
    var completed := NewLines(journal, from, to); if completed == [[]] then [] else completed
  }

  // The offsets reached by successive polls.
  predicate Polls(journal: seq<Byte>, cuts: seq<nat>) {
    cuts != [] && cuts[0] == 0 && cuts[|cuts| - 1] <= |journal| &&
    forall i, j :: 0 <= i <= j < |cuts| ==> cuts[i] <= cuts[j]
  }

  function Deliveries(journal: seq<Byte>, cuts: seq<nat>): seq<Text>
    requires Polls(journal, cuts)
    decreases |cuts|
  {
    var n := |cuts| - 1;
    if n == 0 then [] else Deliveries(journal, cuts[..n]) + PollLines(journal, cuts[n - 1], cuts[n])
  }

  lemma PollsFront(journal: seq<Byte>, cuts: seq<nat>)
    requires Polls(journal, cuts) && |cuts| > 1
    ensures var n := |cuts| - 1;
            Polls(journal, cuts[..n]) && cuts[..n][n - 1] == cuts[n - 1] && cuts[n - 1] <= cuts[n] <= |journal|
  {
    var n := |cuts| - 1;
    var front := cuts[..n];
    assert front[0] == cuts[0] && front[n - 1] == cuts[n - 1];
    assert forall i :: 0 <= i < n ==> front[i] == cuts[i];
  }

  lemma LastDelivery(journal: seq<Byte>, cuts: seq<nat>)
    requires Polls(journal, cuts) && |cuts| > 1
    ensures var n := |cuts| - 1;
            Polls(journal, cuts[..n]) && cuts[n - 1] <= cuts[n] <= |journal| &&
            Deliveries(journal, cuts) == Deliveries(journal, cuts[..n]) + PollLines(journal, cuts[n - 1], cuts[n])
  {
    hide PollLines, Polls;
    PollsFront(journal, cuts);
  }

  lemma DeliveriesSnoc(journal: seq<Byte>, cuts: seq<nat>, to: nat)
    requires Polls(journal, cuts) && cuts[|cuts| - 1] <= to <= |journal|
    ensures Polls(journal, cuts + [to])
    ensures Deliveries(journal, cuts + [to]) == Deliveries(journal, cuts) + PollLines(journal, cuts[|cuts| - 1], to)
  {
    hide PollLines;
    var longer := cuts + [to];
    assert longer[..|cuts|] == cuts && longer[|cuts|] == to;
  }

  // The lines cut from the old tail and the bytes just read are what the poll delivers.
  lemma ReadLines(journal: seq<Byte>, from: nat, to: nat, buf: seq<Byte>, lines: seq<Text>)
    requires from <= to <= |journal| && buf == Tail(journal[..from]) + journal[from..to]
    requires lines == if DecodeAll(Complete(buf)) == [[]] then [] else DecodeAll(Complete(buf))
    ensures lines == PollLines(journal, from, to)
    ensures NonEmpty(DecodeAll(Complete(buf))) == NonEmpty(NewLines(journal, from, to))
  {
  }

  lemma NothingRead(journal: seq<Byte>, at: nat)
    requires at <= |journal|
    ensures PollLines(journal, at, at) == []
  {
    NewLinesExtend(journal, at, at);
  }

  // The tail holds the bytes after the last line feed read, and the non-empty lines delivered
  // are those of the prefix read, in order and once each. Which empty lines were delivered
  // depends on the polls.
  predicate Traced(journal: seq<Byte>, offset: nat, tail: seq<Byte>, delivered: seq<Text>, cuts: seq<nat>) {
    && offset <= |journal|
    && tail == Tail(journal[..offset])
    && NonEmpty(delivered) == NonEmpty(TextLines(journal[..offset]))
    && Polls(journal, cuts) && cuts[|cuts| - 1] == offset
    && delivered == Deliveries(journal, cuts)
  }

  lemma TraceOn(journal: seq<Byte>, offset: nat, tail: seq<Byte>, delivered: seq<Text>, cuts: seq<nat>, to: nat,
                buf: seq<Byte>, lines: seq<Text>)
    requires Traced(journal, offset, tail, delivered, cuts) && offset <= to <= |journal|
    requires buf == tail + journal[offset..to]
    requires lines == if DecodeAll(Complete(buf)) == [[]] then [] else DecodeAll(Complete(buf))
    requires NonEmpty(lines) == NonEmpty(DecodeAll(Complete(buf)))
    ensures Traced(journal, to, Tail(buf), delivered + lines, cuts + [to])
    ensures lines == PollLines(journal, offset, to)
  {
    hide DecodeAll, Complete, Tail, NonEmpty, TextLines, NewLines, PollLines, Deliveries, Polls;
    NewLinesExtend(journal, offset, to);
    ReadLines(journal, offset, to, buf, lines);
    NonEmptyConcat(TextLines(journal[..offset]), NewLines(journal, offset, to));
    NonEmptyConcat(delivered, lines);
    DeliveriesSnoc(journal, cuts, to);
  }

  lemma InReach(journal: seq<Byte>, offset: nat, tail: seq<Byte>, delivered: seq<Text>, cuts: seq<nat>)
    ensures Traced(journal, offset, tail, delivered, cuts) ==>
              offset <= |journal| && NonEmpty(delivered) == NonEmpty(TextLines(journal[..offset]))
  {
  }

  lemma TraceStart(journal: seq<Byte>)
    ensures Traced(journal, 0, [], [], [0])
  {
    NoLinesYet(journal);
    assert journal[..0] == [];
  }

  // ----- the follower -----

  class Follower {
    var isOpen: bool
    var offset: nat
    var tail: seq<Byte>
    ghost var delivered: seq<Text>  // every line returned so far
    ghost var cuts: seq<nat>        // the offsets reached so far

    constructor ()
      ensures !isOpen && offset == 0 && tail == [] && delivered == [] && cuts == [0]
      ensures forall journal :: Follows(journal)
    {
      isOpen, offset, tail, delivered, cuts := false, 0, [], [], [0];
      new;
      forall journal ensures Follows(journal) { TraceStart(journal); }
    }

    ghost predicate Follows(journal: seq<Byte>)
      reads this
    {
      Traced(journal, offset, tail, delivered, cuts)
    }

    // Every poll returns the lines its bytes complete, all of them, save that a poll
    // completing nothing but one empty line returns none.
    method ReadNewLines(journal: seq<Byte>, poll: Poll) returns (lines: seq<Text>)
      requires Follows(journal) && poll.size <= |journal|
      modifies this
      ensures Follows(journal)
      ensures Pos(isOpen, offset) == AfterPoll(Pos(old(isOpen), old(offset)), poll)
      ensures offset <= |journal|
      ensures lines == PollLines(journal, old(offset), offset)
      ensures delivered == old(delivered) + lines
    {
      InReach(journal, offset, tail, delivered, cuts);
      hide Split, Decode, DecodeFrom, DecodeAll, Complete, Tail, TextLines, NonEmpty, NewLines, PollLines, Polls;
      hide Deliveries, Traced, Taken, Consumed;
      var read := Receive(poll);
      if read < 0 {
        NothingRead(journal, offset);
        assert delivered + [] == delivered;
        return [];
      }
      var buf := tail + journal[offset..offset + read];
      var rest;
      lines, rest := CutLines(buf);
      TraceOn(journal, offset, tail, delivered, cuts, offset + read, buf, lines);
      offset, tail := offset + read, rest;
      delivered, cuts := delivered + lines, cuts + [offset];
    }

    // Open the file if need be and read what was appended; -1 when the poll gives up.
    method Receive(poll: Poll) returns (read: int)
      modifies this`isOpen
      ensures isOpen == (old(isOpen) || poll.canOpen)
      ensures -1 <= read && (if read < 0 then 0 else read) == Consumed(old(isOpen), offset, poll)
      ensures read >= 0 ==> offset + read <= poll.size
    {
      if !isOpen {
        if !poll.canOpen { return -1; }
        isOpen := true;
      }
      if !poll.canStat { return -1; }
      var size := poll.size;
      if size <= offset { return -1; }
      read := ReadAppended(poll.results, size - offset);
    }

    method Close()
      modifies this
      ensures !isOpen && offset == old(offset) && tail == old(tail) && delivered == old(delivered) && cuts == old(cuts)
    {
      isOpen := false;
    }
  }

  method CutLines(buf: seq<Byte>) returns (lines: seq<Text>, tail: seq<Byte>)
    ensures tail == Tail(buf)
    ensures lines == if DecodeAll(Complete(buf)) == [[]] then [] else DecodeAll(Complete(buf))
    ensures NonEmpty(lines) == NonEmpty(DecodeAll(Complete(buf)))
  {
    var lastNl := LastIndexOfLf(buf);
    if lastNl < 0 {
      SplitNone<Byte>(buf, LF);
      return [], buf;
    }
    LastLf(buf, lastNl);
    tail := buf[lastNl + 1..];
    var complete := Decode(buf[..lastNl]);
    SplitDecoded(buf[..lastNl]);
    if |complete| > 0 {
      lines := Split<int>(complete, LF);
      NotLoneEmpty(buf[..lastNl]);
    } else {
      lines := [];
      if buf[..lastNl] != [] { DecodeNonEmpty(IDLE, buf[..lastNl]); }
      assert Complete(buf) == [[]];
    }
  }

  lemma NotLoneEmpty(bytes: seq<Byte>)
    requires bytes != []
    ensures DecodeAll(Split<Byte>(bytes, LF)) != [[]]
  {
    var p := Split<Byte>(bytes, LF);
    JoinSplit<Byte>(bytes, LF);
    if |p| == 1 { DecodeNonEmpty(IDLE, p[0]); }
  }

  // The read loop: until everything asked for has arrived, a read returns nothing, or one
  // throws (-1: the caller gives the poll up and reads the same bytes again next time).
  method ReadAppended(results: seq<Read>, want: nat) returns (read: int)
    requires want > 0
    ensures read == Taken(results, 0, want)
  {
    read := 0;
    var i := 0;
    while read < want && i < |results|
      invariant 0 <= read <= want && i <= |results|
      invariant Taken(results, 0, want) == Taken(results[i..], read, want)
      decreases |results| - i
    {
      assert results[i..][1..] == results[i + 1..];
      match results[i] {
        case Failed => return -1;
        case Got(n) =>
          if n == 0 { return; }
          read := if read + n <= want then read + n else want;
      }
      i := i + 1;
    }
    read := want;
  }

  method LastIndexOfLf(buf: seq<Byte>) returns (i: int)
    ensures i == -1 ==> LF !in buf
    ensures i != -1 ==> 0 <= i < |buf| && buf[i] == LF && LF !in buf[i + 1..]
  {
    i := |buf| - 1;
    while i >= 0
      invariant -1 <= i < |buf|
      invariant LF !in buf[i + 1..]
    {
      if buf[i] == LF { return; }
      assert buf[i..] == [buf[i]] + buf[i + 1..];
      i := i - 1;
    }
  }

  // ----- when every line arrives -----

  // Every schedule of polls delivers every line of what it read.
  ghost predicate AllArrive(journal: seq<Byte>) {
    forall cuts :: Polls(journal, cuts) ==> Deliveries(journal, cuts) == TextLines(journal[..cuts[|cuts| - 1]])
  }

  lemma NewLinesAreLines(journal: seq<Byte>, from: nat, to: nat)
    requires from <= to <= |journal|
    ensures forall l :: l in NewLines(journal, from, to) ==> l in TextLines(journal)
  {
    NewLinesExtend(journal, from, to);
    NewLinesExtend(journal, to, |journal|);
    assert journal[..|journal|] == journal;
  }

  lemma NoneLostByPoll(journal: seq<Byte>, from: nat, to: nat)
    requires from <= to <= |journal| && [] !in TextLines(journal)
    ensures PollLines(journal, from, to) == NewLines(journal, from, to)
  {
    hide TextLines, NewLines;
    NewLinesAreLines(journal, from, to);
    var lone: seq<Text> := [[]];
    assert lone[0] in lone;
  }

  lemma {:induction false} NoneLost(journal: seq<Byte>, cuts: seq<nat>)
    requires Polls(journal, cuts) && [] !in TextLines(journal)
    ensures Deliveries(journal, cuts) == TextLines(journal[..cuts[|cuts| - 1]])
    decreases |cuts|
  {
    var n := |cuts| - 1;
    if n == 0 {
      NoLinesYet(journal);
    } else {
      PollsFront(journal, cuts);
      LastDelivery(journal, cuts);
      hide TextLines, NewLines, PollLines, Deliveries, Polls;
      NoneLost(journal, cuts[..n]);
      NoneLostByPoll(journal, cuts[n - 1], cuts[n]);
      NewLinesExtend(journal, cuts[n - 1], cuts[n]);
    }
  }

  // One more byte completes at most one line.
  lemma OneByteLines(journal: seq<Byte>, p: nat)
    requires p < |journal|
    ensures |NewLines(journal, p, p + 1)| <= 1
  {
    var tail := Tail(journal[..p]);
    SplitPieces<Byte>(journal[..p], LF);
    assert tail in Split<Byte>(journal[..p], LF);
    assert journal[p..p + 1] == [journal[p]];
    if journal[p] == LF {
      SplitAt<Byte>(tail, LF, []);
      SplitNone<Byte>(tail, LF);
      assert tail + [LF] + [] == tail + [LF];
    } else {
      SplitNone<Byte>(tail + [journal[p]], LF);
    }
  }

  lemma NoLinesYet(journal: seq<Byte>)
    ensures TextLines(journal[..0]) == []
  {
    assert journal[..0] == [];
  }

  lemma OnlyLine(lines: seq<Text>)
    requires [] in lines && |lines| <= 1
    ensures lines == [[]]
  {
  }

  // An empty line is completed by some byte, which a poll of its own can read.
  lemma {:induction false} LoneEmptyLine(journal: seq<Byte>, n: nat) returns (p: nat)
    requires n <= |journal| && [] in TextLines(journal[..n])
    ensures p < n && NewLines(journal, p, p + 1) == [[]]
    decreases n
  {
    hide TextLines, NewLines;
    NoLinesYet(journal);
    p := n - 1;
    NewLinesExtend(journal, p, n);
    if [] in TextLines(journal[..p]) {
      p := LoneEmptyLine(journal, p);
    } else {
      OneByteLines(journal, p);
      OnlyLine(NewLines(journal, p, n));
    }
  }

  lemma {:induction false} NeverMore(journal: seq<Byte>, cuts: seq<nat>)
    requires Polls(journal, cuts)
    ensures |Deliveries(journal, cuts)| <= |TextLines(journal[..cuts[|cuts| - 1]])|
    decreases |cuts|
  {
    var n := |cuts| - 1;
    if n > 0 {
      PollsFront(journal, cuts);
      LastDelivery(journal, cuts);
      hide TextLines, NewLines, Deliveries, Polls;
      NeverMore(journal, cuts[..n]);
      NewLinesExtend(journal, cuts[n - 1], cuts[n]);
    }
  }

  lemma OneLost(journal: seq<Byte>)
    requires [] in TextLines(journal)
    ensures exists cuts :: Polls(journal, cuts) && Deliveries(journal, cuts) != TextLines(journal[..cuts[|cuts| - 1]])
  {
    hide TextLines, Deliveries;
    assert journal[..|journal|] == journal;
    var p := LoneEmptyLine(journal, |journal|);
    var before: seq<nat> := [0, p];
    assert Polls(journal, before);
    NeverMore(journal, before);
    DeliveriesSnoc(journal, before, p + 1);
    NewLinesExtend(journal, p, p + 1);
    var cuts := before + [p + 1];
    assert cuts[|cuts| - 1] == p + 1;
    assert |Deliveries(journal, cuts)| < |TextLines(journal[..p + 1])|;
  }

  // Every line arrives under every schedule of polls if and only if no line is empty.
  lemma AllArriveExactlyWhen(journal: seq<Byte>)
    ensures AllArrive(journal) <==> [] !in TextLines(journal)
  {
    hide TextLines, Deliveries;
    if [] in TextLines(journal) {
      OneLost(journal);
    } else {
      forall cuts | Polls(journal, cuts)
        ensures Deliveries(journal, cuts) == TextLines(journal[..cuts[|cuts| - 1]])
      {
        NoneLost(journal, cuts);
      }
    }
  }

  // Two line feeds read at once give two empty lines, read one by one they give none.
  lemma EmptyLinesDependOnPolls()
    ensures Polls([LF, LF], [0, 2]) && Deliveries([LF, LF], [0, 2]) == [[], []]
    ensures Polls([LF, LF], [0, 1, 2]) && Deliveries([LF, LF], [0, 1, 2]) == []
  {
    var j: seq<Byte> := [LF, LF];
    TwoLineFeeds();
    var start: seq<nat> := [0];
    assert Polls(j, start);
    DeliveriesSnoc(j, start, 2);
    DeliveriesSnoc(j, start, 1);
    DeliveriesSnoc(j, start + [1], 2);
    assert start + [2] == [0, 2] && start + [1] + [2] == [0, 1, 2];
  }

  lemma TwoLineFeeds()
    ensures NewLines([LF, LF], 0, 2) == [[], []]
    ensures NewLines([LF, LF], 0, 1) == [[]] && NewLines([LF, LF], 1, 2) == [[]]
  {
    var j: seq<Byte> := [LF, LF];
    assert j[..0] == [] && j[..1] == [LF] && j[0..2] == j && j[0..1] == [LF] && j[1..2] == [LF];
    SplitAt<Byte>([], LF, []);
    SplitAt<Byte>([], LF, [LF]);
    assert [] + [LF] + [LF] == j && [] + [LF] + [] == [LF];
    assert [] + j == j && [] + [LF] == [LF];
    assert Split<Byte>([], LF) == [[]];
    assert Complete([LF]) == [[]] && Complete(j) == [[], []] && Tail([LF]) == [];
    var two: seq<seq<Byte>> := [[], []];
    assert two[1..] == [[]] && DecodeAll([[]]) == [[]] && DecodeAll(two) == [[], []];
  }
}
