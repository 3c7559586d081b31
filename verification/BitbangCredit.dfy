/** The serial adapter's flow control: how many characters can be under way in any run. */
module BitbangCredit {
  import opened Words
  import opened Bitbang

  datatype Op = Send(tms: seq<bool>, tdi: seq<bool>, read: bool) | Recv | Delay

  const START := Wire([], 0, 0, false, 0)

  /** The driver's discipline: a reading send is followed by its receive. */
  predicate Legal(w: Wire, op: Op)
  {
    match op
    case Send(tms, tdi, read) => |tms| <= 14 && |tdi| <= 64 && (read ==> tdi != []) && w.toRead == 0
    case Recv => w.toRead > 0
    case Delay => true
  }

  function Do(w: Wire, op: Op): Wire
  {
    match op
    case Send(tms, tdi, read) => DoSend(w, Chars(tms, tdi, read), read, |tdi|)
    case Recv => DoRecv(w)
    case Delay => DoDelay(w)
  }

  /** An upper bound on the characters of a send: `k` if it only writes, `r` if it reads. */
  predicate Fits(op: Op, k: nat, r: nat)
  {
    op.Send? ==> |Chars(op.tms, op.tdi, op.read)| <= if op.read then r else k
  }

  predicate Sized(ops: seq<Op>, k: nat, r: nat)
  {
    forall i :: 0 <= i < |ops| ==> Fits(ops[i], k, r)
  }

  /** A run, if the driver keeps to the discipline. */
  function Play(ops: seq<Op>): Option<Wire>
    decreases |ops|
  {
    if ops == [] then Some(START)
    else
      var n := |ops| - 1;
      var w := Play(ops[..n]);
      if w.Some? && Legal(w.value, ops[n]) then Some(Do(w.value, ops[n])) else None
  }

  /** Characters that are not delays. */
  function Counted(s: seq<Byte>): (n: nat)
    ensures n <= |s|
  {
    if s == [] then 0 else Counted(s[..|s| - 1]) + if s[|s| - 1] == DELAY then 0 else 1
  }

  /** Delays. */
  function Delays(s: seq<Byte>): nat
  {
    |s| - Counted(s)
  }

  /** What the host does not know to be consumed. */
  function UnderWay(w: Wire): seq<Byte>
    requires w.acked <= |w.sent|
  {
    w.sent[w.acked..]
  }

  /** What came after the last character of a kind. */
  function Since(s: seq<Byte>, kind: Byte -> bool): seq<Byte>
  {
    s[After(s, kind)..]
  }

  /** The counters bound what is under way: between the two kinds of acknowledgement three
      characters of a read's tail and the delays go uncounted. */
  ghost predicate Credit(w: Wire, k: nat, r: nat)
  {
    && w.acked <= |w.sent| && Counted(UnderWay(w)) <= w.count + 3
    && w.count <= (if w.pending then 901 + k else if w.toRead > 0 then 900 + r else 900)
    && (w.pending ==> w.toRead == 0 && Counted(Since(w.sent, IsMark)) == 0)
    && (w.toRead > 0 ==> Counted(Since(w.sent, IsRead)) == 3)
  }

  lemma {:induction false} CountedConcat(a: seq<Byte>, b: seq<Byte>)
    ensures Counted(a + b) == Counted(a) + Counted(b)
    decreases |b|
  {
    if b == [] {
      assert a + b == a;
    } else {
      assert (a + b)[..|a + b| - 1] == a + b[..|b| - 1];
      CountedConcat(a, b[..|b| - 1]);
    }
  }

  /** Characters of other kinds do not move the last one of a kind. */
  lemma {:induction false} AfterConcat(a: seq<Byte>, b: seq<Byte>, kind: Byte -> bool)
    requires forall i :: 0 <= i < |b| ==> !kind(b[i])
    ensures After(a + b, kind) == After(a, kind)
    decreases |b|
  {
    if b == [] {
      assert a + b == a;
    } else {
      assert (a + b)[..|a + b| - 1] == a + b[..|b| - 1];
      AfterConcat(a, b[..|b| - 1], kind);
    }
  }

  lemma AfterLast(a: seq<Byte>, c: Byte, kind: Byte -> bool)
    requires kind(c)
    ensures After(a + [c], kind) == |a| + 1
  {
  }

  lemma {:induction false} NoDelays(s: seq<Byte>)
    requires forall i :: 0 <= i < |s| ==> s[i] != DELAY
    ensures Counted(s) == |s|
    decreases |s|
  {
    if s != [] {
      NoDelays(s[..|s| - 1]);
    }
  }

  /** More characters under way. */
  lemma UnderWayMore(sent: seq<Byte>, acked: nat, out: seq<Byte>)
    requires acked <= |sent|
    ensures Counted((sent + out)[acked..]) == Counted(sent[acked..]) + Counted(out)
  {
    assert (sent + out)[acked..] == sent[acked..] + out;
    CountedConcat(sent[acked..], out);
  }

  lemma CodeIsNoDelay(tms: bool, tdi: bool, read: bool)
    ensures var c := Code(tms, tdi, read); c != DELAY && c != MARK && (IsRead(c) <==> read)
  {
  }

  /** The characters of a send: none is a delay or a mark, and after the last read there are
      three more. */
  lemma CharsSent(tms: seq<bool>, tdi: seq<bool>, read: bool)
    ensures forall i :: 0 <= i < |Chars(tms, tdi, read)| ==>
              Chars(tms, tdi, read)[i] != DELAY && !IsMark(Chars(tms, tdi, read)[i])
    ensures tdi != [] ==>
              forall i :: |tms| + |tdi| + 2 <= i < |Chars(tms, tdi, read)| ==> !IsRead(Chars(tms, tdi, read)[i])
    ensures tdi != [] && read ==> IsRead(Chars(tms, tdi, read)[|tms| + |tdi| + 1])
  {
    var chars, t := Chars(tms, tdi, read), |tms|;
    hide Code, IsRead;
    forall x: bool, y: bool, z: bool
      ensures Code(x, y, z) != DELAY && Code(x, y, z) != MARK && (IsRead(Code(x, y, z)) <==> z)
    {
      CodeIsNoDelay(x, y, z);
    }
    if tdi != [] {
      assert chars[t..t + 3] == Lead(read);
      assert chars[t + 3..t + 3 + |tdi|] == TdiChars(tdi, read);
      assert chars[t + 3 + |tdi|..] == TAIL;
    }
  }

  /** Where a read leaves the host when its reply is in. */
  lemma ReadSent(sent: seq<Byte>, tms: seq<bool>, tdi: seq<bool>)
    requires tdi != []
    ensures Counted(Since(sent + Chars(tms, tdi, true), IsRead)) == 3
  {
    var chars, n := Chars(tms, tdi, true), |tms| + |tdi| + 2;
    CharsSent(tms, tdi, true);
    hide Chars, IsRead;
    var head, tail := chars[..n], chars[n..];
    assert sent + chars == sent + head[..n - 1] + [head[n - 1]] + tail;
    AfterLast(sent + head[..n - 1], head[n - 1], IsRead);
    AfterConcat(sent + head[..n - 1] + [head[n - 1]], tail, IsRead);
    assert Since(sent + chars, IsRead) == tail;
    NoDelays(tail);
  }

  lemma SendKeeps(w: Wire, op: Op, k: nat, r: nat)
    requires op.Send? && Credit(w, k, r) && Legal(w, op) && Fits(op, k, r)
    ensures Credit(Do(w, op), k, r)
  {
    var chars := Chars(op.tms, op.tdi, op.read);
    CharsSent(op.tms, op.tdi, op.read);
    hide IsRead, IsMark, Counted, After, Chars;
    NoDelays(chars);
    if w.pending {
      Answered(w, k, r);
      SendsOn(w.(acked := After(w.sent, IsMark), count := 0, pending := false), op, k, r);
    } else {
      SendsOn(w, op, k, r);
    }
  }

  /** The answer to a mark. */
  lemma Answered(w: Wire, k: nat, r: nat)
    requires Credit(w, k, r) && w.pending
    ensures Credit(w.(acked := After(w.sent, IsMark), count := 0, pending := false), k, r)
  {
  }

  lemma SendsOn(w: Wire, op: Op, k: nat, r: nat)
    requires op.Send? && Credit(w, k, r) && Legal(w, op) && Fits(op, k, r) && !w.pending
    requires Counted(Chars(op.tms, op.tdi, op.read)) == |Chars(op.tms, op.tdi, op.read)|
    ensures Credit(Do(w, op), k, r)
  {
    var chars := Chars(op.tms, op.tdi, op.read);
    if op.read {
      ReadSent(w.sent, op.tms, op.tdi);
      hide Chars, IsRead, IsMark, Counted, After;
      UnderWayMore(w.sent, w.acked, chars);
    } else if w.count + |chars| > 900 {
      hide Chars, IsRead, IsMark, Counted, After;
      MarkedCredit(w, chars, k, r);
    } else {
      hide Chars, IsRead, IsMark, Counted, After;
      UnderWayMore(w.sent, w.acked, chars);
    }
  }

  /** Characters and a mark. */
  lemma MarkedCredit(w: Wire, chars: seq<Byte>, k: nat, r: nat)
    requires Credit(w, k, r) && !w.pending && w.toRead == 0 && |chars| <= k && Counted(chars) == |chars|
    requires w.count + |chars| > 900
    ensures Credit(DoSend(w, chars, false, 0), k, r)
  {
    hide IsRead, IsMark, Counted, After;
    UnderWayMore(w.sent, w.acked, chars);
    MarkSent(w.sent, w.acked, chars);
  }

  lemma MarkSent(sent: seq<Byte>, acked: nat, chars: seq<Byte>)
    requires acked <= |sent|
    ensures Counted(Since(sent + (chars + [MARK]), IsMark)) == 0
    ensures Counted((sent + (chars + [MARK]))[acked..]) == Counted((sent + chars)[acked..]) + 1
  {
    assert sent + (chars + [MARK]) == sent + chars + [MARK];
    AfterLast(sent + chars, MARK, IsMark);
    assert (sent + chars + [MARK])[|sent + chars| + 1..] == [];
    UnderWayMore(sent + chars, acked, [MARK]);
    assert [MARK][..0] == [];
    assert Counted([MARK]) == 1;
  }

  lemma DelayKeeps(w: Wire, k: nat, r: nat)
    requires Credit(w, k, r)
    ensures Credit(DoDelay(w), k, r)
  {
    hide Counted, After;
    OneDelay();
    UnderWayMore(w.sent, w.acked, [DELAY]);
    AfterConcat(w.sent, [DELAY], IsMark);
    AfterConcat(w.sent, [DELAY], IsRead);
    UnderWayMore(w.sent, After(w.sent, IsMark), [DELAY]);
    UnderWayMore(w.sent, After(w.sent, IsRead), [DELAY]);
  }

  lemma OneDelay()
    ensures Counted([DELAY]) == 0
  {
    assert [DELAY][..0] == [];
  }

  /** Every run that keeps to the discipline. */
  lemma {:induction false} EveryRun(ops: seq<Op>, k: nat, r: nat)
    requires Play(ops).Some? && Sized(ops, k, r)
    ensures Credit(Play(ops).value, k, r)
    decreases |ops|
  {
    hide Credit, DoSend, DoDelay, DoRecv, Legal, Fits;
    if ops == [] {
      StartCredit(k, r);
    } else {
      var n := |ops| - 1;
      EveryRun(ops[..n], k, r);
      var w := Play(ops[..n]).value;
      match ops[n]
      case Send(_, _, _) => SendKeeps(w, ops[n], k, r);
      case Recv => RecvKeeps(w, k, r);
      case Delay => DelayKeeps(w, k, r);
    }
  }

  lemma StartCredit(k: nat, r: nat)
    ensures Credit(START, k, r)
  {
  }

  lemma RecvKeeps(w: Wire, k: nat, r: nat)
    requires Credit(w, k, r) && Legal(w, Recv)
    ensures Credit(DoRecv(w), k, r)
  {
    hide Counted, After;
  }

  /** How many characters besides delays can be under way. */
  function Most(k: nat, r: nat): nat
  {
    if 901 + k < 900 + r then 900 + r + 3 else 901 + k + 3
  }

  /** The counter never exceeds its bound; no more than three characters beyond that and the
      delays are under way; and no receive meets an unanswered mark. */
  lemma NeverOverflows(ops: seq<Op>, k: nat, r: nat)
    requires Play(ops).Some? && Sized(ops, k, r)
    ensures var w := Play(ops).value;
            && w.count + 3 <= Most(k, r) && w.acked <= |w.sent|
            && |UnderWay(w)| <= Most(k, r) + Delays(UnderWay(w))
            && (w.toRead > 0 ==> !w.pending)
  {
    EveryRun(ops, k, r);
  }

  // ----- The bound is met -----------------------------------------------------------

  /** A run after which `n` characters are counted and `m` are under way, `d` of them delays. */
  ghost predicate Reaches(ops: seq<Op>, n: nat, m: nat, d: nat)
  {
    && Play(ops).Some? && Play(ops).value.count == n && Play(ops).value.acked <= |Play(ops).value.sent|
    && |UnderWay(Play(ops).value)| == m && Delays(UnderWay(Play(ops).value)) == d
  }

  /** The next operation may be any. */
  ghost predicate Free(ops: seq<Op>)
  {
    Play(ops).Some? && Play(ops).value.toRead == 0 && !Play(ops).value.pending
  }

  lemma PlayMore(ops: seq<Op>, op: Op)
    requires Play(ops).Some? && Legal(Play(ops).value, op)
    ensures Play(ops + [op]) == Some(Do(Play(ops).value, op))
  {
    assert (ops + [op])[..|ops|] == ops;
  }

  /** After a read of one bit nothing is counted, and three characters are under way. */
  lemma AfterRead(k: nat, r: nat) returns (ops: seq<Op>)
    requires 6 <= r
    ensures Reaches(ops, 0, 3, 0) && Free(ops) && Sized(ops, k, r)
  {
    ops := [];
    var send := Send([], [true], true);
    PlayMore(ops, send);
    ops := ops + [send];
    ReadSent([], [], [true]);
    CharsSent([], [true], true);
    var w := Play(ops).value;
    assert w.sent == [] + Chars([], [true], true);
    hide Chars, IsRead, Counted;
    var u := Since(w.sent, IsRead);
    PlayMore(ops, Recv);
    ops := ops + [Recv];
    assert UnderWay(Play(ops).value) == u;
    NoDelays(u);
  }

  /** A send of `n` characters. */
  function Filler(n: nat, read: bool): (op: Op)
    requires 6 <= n <= 83
    ensures op.Send? && op.read == read && |op.tms| <= 14 && 0 < |op.tdi| <= 64
    ensures |Chars(op.tms, op.tdi, read)| == n
  {
    var b := if n <= 69 then n - 5 else 64;
    Send(seq(n - 5 - b, _ => false), seq(b, _ => false), read)
  }

  /** What one more send adds; the mark counts too. */
  lemma Fill(ops: seq<Op>, n: nat, more: nat, read: bool)
    requires Reaches(ops, n, n + 3, 0) && Free(ops) && 6 <= more <= 83
    ensures var after, all := ops + [Filler(more, read)], n + more;
            && (read || all <= 900 ==> Reaches(after, all, all + 3, 0))
            && (!read && all <= 900 ==> Free(after))
            && (!read && all > 900 ==> Reaches(after, all + 1, all + 4, 0))
  {
    var w, op := Play(ops).value, Filler(more, read);
    var chars := Chars(op.tms, op.tdi, read);
    PlayMore(ops, op);
    CharsSent(op.tms, op.tdi, read);
    hide Chars, Counted, Filler;
    NoDelays(chars);
    UnderWayMore(w.sent, w.acked, chars);
    if !read && n + |chars| > 900 {
      MarkSent(w.sent, w.acked, chars);
    }
  }

  /** Sends of six characters. */
  lemma {:induction false} FillTimes(ops: seq<Op>, times: nat, k: nat, r: nat) returns (more: seq<Op>)
    requires Reaches(ops, 0, 3, 0) && Free(ops) && times <= 150 && Sized(ops, k, r) && 6 <= k
    ensures Reaches(more, 6 * times, 6 * times + 3, 0) && Free(more) && Sized(more, k, r)
  {
    hide Reaches, Play, Free, Chars;
    if times == 0 {
      more := ops;
    } else {
      var before := FillTimes(ops, times - 1, k, r);
      Fill(before, 6 * (times - 1), 6, false);
      more := before + [Filler(6, false)];
    }
  }

  lemma {:induction false} DelayTimes(ops: seq<Op>, n: nat, m: nat, times: nat, k: nat, r: nat) returns (more: seq<Op>)
    requires Reaches(ops, n, m, 0) && Sized(ops, k, r)
    ensures Reaches(more, n, m + times, times) && Sized(more, k, r)
  {
    if times == 0 {
      more := ops;
    } else {
      var before := DelayTimes(ops, n, m, times - 1, k, r);
      var w := Play(before).value;
      PlayMore(before, Delay);
      more := before + [Delay];
      OneDelay();
      UnderWayMore(w.sent, w.acked, [DELAY]);
      assert UnderWay(Play(more).value) == UnderWay(w) + [DELAY];
    }
  }

  /** The bound and any number of delays can be under way. */
  lemma FullHouse(k: nat, r: nat, d: nat) returns (ops: seq<Op>)
    requires 6 <= k <= 83 && 6 <= r <= 83
    ensures Reaches(ops, Most(k, r) - 3, Most(k, r) + d, d) && Sized(ops, k, r)
  {
    hide Reaches, Play, Free, Chars;
    var before := AfterRead(k, r);
    before := FillTimes(before, 150, k, r);
    var read := 901 + k < 900 + r;
    var op := Filler(if read then r else k, read);
    Fill(before, 900, if read then r else k, read);
    ops := DelayTimes(before + [op], Most(k, r) - 3, Most(k, r), d, k, r);
  }

  /** With up to `d` delays under way, everything is in the buffer. */
  predicate Safe(w: Wire, d: nat)
  {
    w.acked <= |w.sent| && (Delays(UnderWay(w)) <= d ==> |UnderWay(w)| <= 1024)
  }

  ghost predicate AllSafe(k: nat, r: nat, d: nat)
  {
    forall ops :: Play(ops).Some? && Sized(ops, k, r) ==> Safe(Play(ops).value, d)
  }

  /** When the 1024-byte buffer is safe against `d` uncounted delays, for sends of any size. */
  lemma SafeIff(k: nat, r: nat, d: nat)
    requires 6 <= k <= 83 && 6 <= r <= 83
    ensures AllSafe(k, r, d) <==> Most(k, r) + d <= 1024
  {
    if Most(k, r) + d <= 1024 {
      forall ops | Play(ops).Some? && Sized(ops, k, r)
        ensures Safe(Play(ops).value, d)
      {
        NeverOverflows(ops, k, r);
      }
    } else {
      var n := 1025 - Most(k, r);
      var ops := FullHouse(k, r, n);
      assert !Safe(Play(ops).value, d);
    }
  }

  /** Every send that the driver's interface allows is of at most 83 characters. */
  lemma {:induction false} EverySized(ops: seq<Op>)
    requires Play(ops).Some?
    ensures Sized(ops, 83, 83)
    decreases |ops|
  {
    if ops != [] {
      var n := |ops| - 1;
      EverySized(ops[..n]);
      assert ops == ops[..n] + [ops[n]];
    }
  }

  /** For all that the interface allows, the limit is 37 delays, not 40. For sends as large as
      those that the driver makes itself, 38 characters to write and 43 to read, it is 78. */
  lemma SafeDelays(d: nat)
    ensures (forall ops :: Play(ops).Some? ==> Safe(Play(ops).value, d)) <==> d <= 37
    ensures AllSafe(38, 43, d) <==> d <= 78
  {
    SafeIff(83, 83, d);
    SafeIff(38, 43, d);
    if d <= 37 {
      forall ops | Play(ops).Some?
        ensures Safe(Play(ops).value, d)
      {
        EverySized(ops);
      }
    } else {
      var ops :| Play(ops).Some? && Sized(ops, 83, 83) && !Safe(Play(ops).value, d);
      assert Play(ops).Some? && !Safe(Play(ops).value, d);
    }
  }
}
