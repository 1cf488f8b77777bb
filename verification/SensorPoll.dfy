/** Polling for the thermal sensor: commands are sent until the received octets, in whatever
    pieces they arrive, contain the response. */
module SensorPoll {
  import opened Bytes
  import CMemory

  // sizeof(g_uart_buf)
  const BUF_LEN: nat := 1024
  // What one read asks for
  const CHUNK: nat := 3

  const RESPONSE: seq<byte> := [0xA8, 0x01, 0x33]

  datatype Status = Ok | NotReady | Interrupted | Exhausted | UartError

  /** What the inner loop meets: the signal to stop, a failing read, a read without data, or
      one to three octets. */
  datatype Event = Signal | Failure | Silence | Octets(b: seq<byte>)

  predicate Deliverable(e: Event) {
    e.Octets? ==> 1 <= |e.b| <= CHUNK
  }

  /** Everything received with the first n events. */
  function Received(events: seq<Event>, n: nat): seq<byte>
    requires n <= |events|
  {
    if n == 0 then []
    else if events[n - 1].Octets? then Received(events, n - 1) + events[n - 1].b
    else Received(events, n - 1)
  }

  predicate MatchAt(s: seq<byte>, p: nat) {
    p + 3 <= |s| && s[p] == RESPONSE[0] && s[p + 1] == RESPONSE[1] && s[p + 2] == RESPONSE[2]
  }

  predicate Contains(s: seq<byte>) {
    exists p: nat {:trigger MatchAt(s, p)} :: p < |s| && MatchAt(s, p)
  }

  /** The search can go on behind the first n events: nothing has stopped it. */
  predicate Searching(events: seq<Event>, n: nat)
    requires n <= |events|
  {
    && (forall m :: 0 <= m < n ==> events[m].Octets? || events[m].Silence?)
    && (forall m :: 0 <= m <= n ==> !Contains(Received(events, m)) && |Received(events, m)| < BUF_LEN - 3)
  }

  /** What ends the search at event n - 1, if anything does. */
  predicate Verdict(status: Status, events: seq<Event>, n: nat, sent: bool)
    requires n <= |events|
  {
    match status
    case Ok => n > 0 && Searching(events, n - 1) && Contains(Received(events, n))
    case Exhausted =>
      n > 0 && Searching(events, n - 1) && !Contains(Received(events, n)) && |Received(events, n)| >= BUF_LEN - 3
    case Interrupted => n > 0 && Searching(events, n - 1) && events[n - 1].Signal?
    case UartError => if sent then n > 0 && Searching(events, n - 1) && events[n - 1].Failure? else Searching(events, n)
    case NotReady => Searching(events, n)
  }

  lemma SearchingMore(events: seq<Event>, n: nat)
    requires n < |events| && Searching(events, n) && (events[n].Octets? || events[n].Silence?)
    requires !Contains(Received(events, n + 1)) && |Received(events, n + 1)| < BUF_LEN - 3
    ensures Searching(events, n + 1)
  {
  }

  /** The search window: the last two octets, as all earlier starts have been tried. */
  predicate Window(s: seq<byte>, edge: nat) {
    edge == (if |s| >= 2 then |s| - 2 else 0) && !Contains(s)
  }

  /** Old starts stay without a match when octets are appended. */
  lemma OldStarts(s: seq<byte>, edge: nat, b: seq<byte>)
    requires Window(s, edge)
    ensures forall p: nat {:trigger MatchAt(s + b, p)} :: p < edge ==> !MatchAt(s + b, p)
  {
    forall p: nat {:trigger MatchAt(s + b, p)} | p < edge ensures !MatchAt(s + b, p) {
      assert !MatchAt(s, p);
    }
  }

  /** The comparison at every start from the edge on: the number of starts tried in vain. */
  method Scan(buf: array<byte>, edge: nat, offset: nat) returns (i: nat, found: bool)
    requires edge + 3 <= offset <= buf.Length
    ensures i <= offset - edge - 2
    ensures forall p: nat {:trigger MatchAt(buf[..offset], p)} :: edge <= p < edge + i ==> !MatchAt(buf[..offset], p)
    ensures found ==> MatchAt(buf[..offset], edge + i)
    ensures !found ==> i == offset - edge - 2
  {
    i := 0;
    while i + 3 <= offset - edge
      invariant i <= offset - edge - 2
      invariant forall p: nat {:trigger MatchAt(buf[..offset], p)} ::
        edge <= p < edge + i ==> !MatchAt(buf[..offset], p)
    {
      if buf[edge + i..edge + i + 3] == RESPONSE {
        assert buf[edge + i..edge + i + 3][0] == buf[edge + i];
        return i, true;
      }
      Mismatch(buf[..offset], edge + i);
      assert buf[..offset][edge + i..edge + i + 3] == buf[edge + i..edge + i + 3];
      i := i + 1;
    }
    found := false;
  }

  lemma Mismatch(s: seq<byte>, p: nat)
    requires p + 3 <= |s|
    ensures MatchAt(s, p) <==> s[p..p + 3] == RESPONSE
  {
    assert s[p..p + 3] == [s[p], s[p + 1], s[p + 2]];
  }

  /** What the loops know while they search. */
  ghost predicate Scanned(m: seq<byte>, events: seq<Event>, n: nat, offset: nat, edge: nat)
    requires |m| == BUF_LEN && n <= |events|
  {
    Searching(events, n) && offset == |Received(events, n)| && m[..offset] == Received(events, n) &&
    Window(Received(events, n), edge)
  }

  /** One read that delivered octets. */
  method Take(buf: array<byte>, events: seq<Event>, n: nat, offset: nat, edge: nat, drained: seq<byte>)
    returns (status: Status, offset': nat, edge': nat)
    requires buf.Length == BUF_LEN && |drained| <= BUF_LEN && n < |events| && Deliverable(events[n])
    requires events[n].Octets? && Scanned(buf[..], events, n, offset, edge)
    modifies buf
    ensures status == NotReady ==> Scanned(buf[..], events, n + 1, offset', edge')
    ensures status != NotReady ==> Verdict(status, events, n + 1, true)
  {
    ghost var r, s := Received(events, n), Received(events, n + 1);
    CMemory.Memcpy(buf, offset, events[n].b);
    offset', edge' := offset + |events[n].b|, edge;
    assert buf[..offset'] == s;
    OldStarts(r, edge, events[n].b);
    var found := false;
    if offset' - edge' >= 3 {
      var i;
      i, found := Scan(buf, edge', offset');
      if found {
        assert MatchAt(s, edge' + i);
        CMemory.Memcpy(buf, 0, drained);
      }
      edge' := edge' + i;
    }
    if found {
      return Ok, offset', edge';
    }
    forall p: nat {:trigger MatchAt(s, p)} | p < edge' ensures !MatchAt(s, p) {
      assert p < edge ==> !MatchAt(r + events[n].b, p);
    }
    NotContained(s, edge, edge');
    if offset' >= BUF_LEN - 3 {
      return Exhausted, offset', edge';
    }
    SearchingMore(events, n);
    status := NotReady;
  }

  lemma NotContained(s: seq<byte>, edge: nat, edge': nat)
    requires edge <= edge' <= |s| && |s| - edge' < 3
    requires forall p: nat {:trigger MatchAt(s, p)} :: p < edge' ==> !MatchAt(s, p)
    ensures !Contains(s)
  {
  }

  /** How many of the first n events are reads without data. */
  function Silences(events: seq<Event>, n: nat): (k: nat)
    requires n <= |events|
    ensures k <= n
  {
    if n == 0 then 0 else Silences(events, n - 1) + (if events[n - 1].Silence? then 1 else 0)
  }

  lemma {:induction false} MoreSilences(events: seq<Event>, m: nat, n: nat)
    requires m < n <= |events|
    ensures Silences(events, m) <= Silences(events, n)
    ensures events[n - 1].Silence? ==> Silences(events, m) < Silences(events, n)
  {
    if m < n - 1 {
      MoreSilences(events, m, n - 1);
    }
  }

  /** Nothing more can happen where the commands or the events run out: either every command has been
      followed by silence, or the last one is still listened to. */
  predicate RunOut(events: seq<Event>, writes: seq<bool>, n: nat, turns: nat)
    requires n <= |events|
  {
    || (turns == |writes| == Silences(events, n) && (n == 0 || events[n - 1].Silence?))
    || (n == |events| && turns == Silences(events, n) + 1)
  }

  /** How polling ends: a command is sent at the beginning and once more behind every silence, until
      a command cannot be sent or the stream gives a verdict. */
  predicate Outcome(status: Status, events: seq<Event>, writes: seq<bool>, n: nat, turns: nat, sent: bool) {
    && n <= |events| && turns <= |writes| && Verdict(status, events, n, sent)
    && (if status == NotReady then RunOut(events, writes, n, turns) else turns == Silences(events, n) + 1)
    && (forall k :: 0 <= k < turns - 1 ==> writes[k])
    && (sent <==> turns == 0 || writes[turns - 1])
    && (!sent ==> status == UartError && (n == 0 || events[n - 1].Silence?))
  }

  /** Stream and commands determine how polling ends. */
  lemma OutcomeUnique(events: seq<Event>, writes: seq<bool>, status: Status, n: nat, turns: nat, sent: bool,
                      status': Status, n': nat, turns': nat, sent': bool)
    requires Outcome(status, events, writes, n, turns, sent)
    requires Outcome(status', events, writes, n', turns', sent')
    ensures status == status' && n == n' && turns == turns' && sent == sent'
  {
    if n < n' {
      NoLater(events, writes, status, n, turns, sent, status', n', turns', sent');
    } else if n' < n {
      NoLater(events, writes, status', n', turns', sent', status, n, turns, sent);
    } else {
      SameEnd(events, writes, status, n, turns, sent, status', turns', sent');
    }
  }

  lemma NoLater(events: seq<Event>, writes: seq<bool>, status: Status, n: nat, turns: nat, sent: bool,
                status': Status, n': nat, turns': nat, sent': bool)
    requires Outcome(status, events, writes, n, turns, sent)
    requires Outcome(status', events, writes, n', turns', sent') && n < n'
    ensures false
  {
    MoreSilences(events, n, n');
    SearchingBefore(status', events, n, n', sent');
    if sent && status != NotReady {
      Stopped(status, events, n);
    }
  }

  /** While the search goes on to n', it has gone on to every earlier n. */
  lemma SearchingBefore(status: Status, events: seq<Event>, n: nat, n': nat, sent: bool)
    requires n < n' <= |events| && Verdict(status, events, n', sent)
    ensures Searching(events, n)
  {
  }

  lemma Stopped(status: Status, events: seq<Event>, n: nat)
    requires n <= |events| && status != NotReady && Verdict(status, events, n, true)
    ensures !Searching(events, n)
  {
  }

  lemma SameEnd(events: seq<Event>, writes: seq<bool>, status: Status, n: nat, turns: nat, sent: bool,
                status': Status, turns': nat, sent': bool)
    requires Outcome(status, events, writes, n, turns, sent)
    requires Outcome(status', events, writes, n, turns', sent')
    ensures status == status' && turns == turns' && sent == sent'
  {
    if sent && status != NotReady {
      Stopped(status, events, n);
    }
    if sent' && status' != NotReady {
      Stopped(status', events, n);
    }
    assert turns == turns' && sent == sent';
    if sent && status != NotReady && status' != NotReady {
      SameVerdict(status, status', events, n);
    }
  }

  lemma SameVerdict(status: Status, status': Status, events: seq<Event>, n: nat)
    requires n <= |events| && status != NotReady && status' != NotReady
    requires Verdict(status, events, n, true) && Verdict(status', events, n, true)
    ensures status == status'
  {
    assert !Contains(Received(events, n - 1)) && |Received(events, n - 1)| < BUF_LEN - 3;
    if !events[n - 1].Octets? {
      assert Received(events, n) == Received(events, n - 1);
    }
  }

  /** The response in two pieces behind one silence ends polling with the second command, if that
      can be sent; if not, the response is not waited for. */
  lemma SilenceExample(resent: bool)
    ensures var events := [Silence, Octets([0xA8]), Octets([0x01, 0x33])];
      if resent then Outcome(Ok, events, [true, true], 3, 2, true) else Outcome(UartError, events, [true, false], 1, 2, false)
  {
    var events := [Silence, Octets([0xA8]), Octets([0x01, 0x33])];
    assert Received(events, 0) == [] == Received(events, 1);
    assert Received(events, 2) == [0xA8];
    assert Received(events, 3) == [0xA8, 0x01, 0x33];
    assert MatchAt(Received(events, 3), 0);
    assert Silences(events, 0) == 0 && Silences(events, 1) == 1 && Silences(events, 2) == 1 && Silences(events, 3) == 1;
  }

  /** The inner loop: reads until there is nothing to read, or the search ends. */
  method Listen(buf: array<byte>, events: seq<Event>, n0: nat, offset0: nat, edge0: nat, drained: seq<byte>)
    returns (status: Status, n: nat, offset: nat, edge: nat, silent: bool)
    requires buf.Length == BUF_LEN && |drained| <= BUF_LEN && forall i :: 0 <= i < |events| ==> Deliverable(events[i])
    requires n0 <= |events| && Scanned(buf[..], events, n0, offset0, edge0)
    modifies buf
    ensures n <= |events| && (status != NotReady ==> Verdict(status, events, n, true))
    ensures status == NotReady ==> Scanned(buf[..], events, n, offset, edge) && (silent || n == |events|)
    ensures silent ==> n > 0 && events[n - 1].Silence?
    ensures Silences(events, n) == Silences(events, n0) + (if silent then 1 else 0)
  {
    status, n, offset, edge, silent := NotReady, n0, offset0, edge0, false;
    while n < |events|
      invariant n <= |events| && Scanned(buf[..], events, n, offset, edge) && status == NotReady && !silent
      invariant Silences(events, n) == Silences(events, n0)
    {
      assert Silences(events, n + 1) == Silences(events, n) + (if events[n].Silence? then 1 else 0);
      match events[n] {
        case Signal =>
          status, n := Interrupted, n + 1;
          return;
        case Failure =>
          status, n := UartError, n + 1;
          return;
        case Silence =>
          SearchingMore(events, n);
          n, silent := n + 1, true;
          return;
        case Octets(_) =>
          status, offset, edge := Take(buf, events, n, offset, edge, drained);
          n := n + 1;
          if status != NotReady {
            return;
          }
      }
    }
  }

  /** The loops of the polling phase. `writes` are the results of sending the poll command, and
      `drained` is what is left in the driver when the response has been found. Returns how many
      events were used, how many commands were tried, and whether the last one was sent. The
      search is still going on when the events or the commands given run out. */
  method Poll(buf: array<byte>, events: seq<Event>, writes: seq<bool>, drained: seq<byte>)
    returns (status: Status, n: nat, turns: nat, sent: bool)
    requires buf.Length == BUF_LEN && |drained| <= BUF_LEN && forall i :: 0 <= i < |events| ==> Deliverable(events[i])
    modifies buf
    ensures Outcome(status, events, writes, n, turns, sent)
  {
    status, n, turns, sent := NotReady, 0, 0, true;
    var offset, edge, silent := 0, 0, true;
    while turns < |writes| && silent
      invariant n <= |events| && turns <= |writes| && status == NotReady && sent
      invariant forall k :: 0 <= k < turns ==> writes[k]
      invariant Scanned(buf[..], events, n, offset, edge)
      invariant if silent then turns == Silences(events, n) && (n == 0 || events[n - 1].Silence?)
                else n == |events| && turns == Silences(events, n) + 1
      decreases |writes| - turns
    {
      turns := turns + 1;
      if !writes[turns - 1] {
        status, sent := UartError, false;
        return;
      }
      status, n, offset, edge, silent := Listen(buf, events, n, offset, edge, drained);
      if status != NotReady {
        return;
      }
    }
  }

  /** The verdict depends on the stream alone: a response is found with the first piece that
      completes it, however the stream is cut, and nothing else can be the verdict then. */
  lemma FoundAtOnce(status: Status, events: seq<Event>, n: nat, sent: bool, m: nat)
    requires n <= |events| && Verdict(status, events, n, sent)
    requires 0 < m <= n && Searching(events, m - 1) && Contains(Received(events, m))
    ensures status == Ok && n == m
  {
    assert !Contains(Received(events, m - 1));
    assert events[m - 1].Octets?;
    assert forall k: nat :: m <= k <= |events| ==> !Searching(events, k);
  }
}
