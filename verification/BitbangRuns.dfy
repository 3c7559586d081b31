/** What the serial adapter's characters do to the target, and how many are ever under way. */
module BitbangRuns {
  import opened Words
  import opened Bits
  import opened Tap
  import opened TapRuns
  import opened Bitbang

  // ----- The same clocks as the USB adapter's -------------------------------------------

  predicate AllClocks(chars: seq<Byte>)
  {
    forall i :: 0 <= i < |chars| ==> IsClock(chars[i])
  }

  /** The clocks the programmer makes of the characters. */
  function Decoded(chars: seq<Byte>): (pairs: seq<Pair>)
    requires AllClocks(chars)
    ensures |pairs| == |chars|
    ensures forall i :: 0 <= i < |pairs| ==> pairs[i] == Decode(chars[i])
  {
    seq(|chars|, i requires 0 <= i < |chars| => Decode(chars[i]))
  }

  function TmsPairs(tms: seq<bool>): (pairs: seq<Pair>)
    ensures |pairs| == |tms| && forall i :: 0 <= i < |pairs| ==> pairs[i] == Pair(tms[i], false)
  {
    seq(|tms|, i requires 0 <= i < |tms| => Pair(tms[i], false))
  }

  lemma CodeDecodes(tms: bool, tdi: bool, read: bool)
    ensures var c := Code(tms, tdi, read);
            IsClock(c) && Decode(c) == Pair(tms, tdi) && (IsRead(c) <==> read)
  {
  }

  lemma DecodedConcat(a: seq<Byte>, b: seq<Byte>)
    requires AllClocks(a) && AllClocks(b)
    ensures AllClocks(a + b) && Decoded(a + b) == Decoded(a) + Decoded(b)
  {
    hide Decode, IsClock;
  }

  lemma TmsDecoded(tms: seq<bool>)
    ensures AllClocks(TmsChars(tms)) && Decoded(TmsChars(tms)) == TmsPairs(tms)
  {
    hide Code, Decode, IsClock, IsRead;
    var c := TmsChars(tms);
    forall i | 0 <= i < |c|
      ensures IsClock(c[i]) && Decode(c[i]) == Pair(tms[i], false)
    {
      CodeDecodes(tms[i], false, false);
    }
  }

  lemma TdiDecoded(tdi: seq<bool>, read: bool)
    ensures AllClocks(TdiChars(tdi, read)) && Decoded(TdiChars(tdi, read)) == ShiftPairs(tdi)
    ensures forall i :: 0 <= i < |tdi| ==> (IsRead(TdiChars(tdi, read)[i]) <==> read && i != |tdi| - 1)
  {
    hide Code, Decode, IsClock, IsRead;
    var c := TdiChars(tdi, read);
    forall i | 0 <= i < |c|
      ensures IsClock(c[i]) && Decode(c[i]) == Pair(i == |tdi| - 1, tdi[i]) &&
              (IsRead(c[i]) <==> read && i != |tdi| - 1)
    {
      CodeDecodes(i == |tdi| - 1, tdi[i], read && i != |tdi| - 1);
    }
  }

  lemma EndsDecoded(read: bool)
    ensures AllClocks(Lead(read)) && Decoded(Lead(read)) == TO_SHIFT_DR
    ensures AllClocks(TAIL) && Decoded(TAIL) == TO_IDLE
  {
  }

  /** What is sent decodes to the TMS bits and the register access that the USB adapter's
      firmware clocks. */
  lemma SameClocks(tms: seq<bool>, tdi: seq<bool>, read: bool)
    ensures AllClocks(Chars(tms, tdi, read))
    ensures Decoded(Chars(tms, tdi, read)) == TmsPairs(tms) + (if tdi == [] then [] else DataPairs(tdi))
  {
    hide TmsChars, TdiChars, Lead, Decoded, AllClocks;
    TmsDecoded(tms);
    if tdi == [] {
      assert Chars(tms, tdi, read) == TmsChars(tms);
      assert TmsPairs(tms) + [] == TmsPairs(tms);
    } else {
      TdiDecoded(tdi, read);
      EndsDecoded(read);
      DecodedConcat(Lead(read), TdiChars(tdi, read));
      DecodedConcat(Lead(read) + TdiChars(tdi, read), TAIL);
      DecodedConcat(TmsChars(tms), Lead(read) + TdiChars(tdi, read) + TAIL);
    }
  }

  /** SetMode, SendCommand, XferData and XferFastData as sends. */
  lemma SameOperations(mode: nat, n: nat, command: nat, data: nat, m: nat, w: Word, read: bool)
    requires m > 0
    ensures Decoded(Clocking(ToBits(mode, n), [], false)) == ModePairs(mode, n)
    ensures Decoded(Clocking(ToBits(1, 1), ToBits(command, 5), false)) == CommandPairs(ToBits(command, 5))
    ensures Decoded(Clocking(ToBits(0, 0), ToBits(data, m), read)) == DataPairs(ToBits(data, m))
    ensures Decoded(Clocking(ToBits(0, 0), ToBits(2 * w, 33), false)) == DataPairs([false] + ToBits(w, 32))
  {
    SameClocks(ToBits(mode, n), [], false);
    ModeBits(mode, n);
    assert ModePairs(mode, n) + [] == ModePairs(mode, n);
    SameClocks(ToBits(1, 1), ToBits(command, 5), false);
    assert ToBits(1, 1) == [true] && ToBits(0, 0) == [];
    CommandIsData(ToBits(command, 5));
    SameClocks([], ToBits(data, m), read);
    SameClocks([], ToBits(2 * w, 33), false);
    assert TmsPairs([]) == [];
    assert TmsPairs([]) + DataPairs(ToBits(data, m)) == DataPairs(ToBits(data, m));
    assert TmsPairs([]) + DataPairs(ToBits(2 * w, 33)) == DataPairs(ToBits(2 * w, 33));
    FastBits(w);
  }

  /** The characters of a send, all of them clocks. */
  function Clocking(tms: seq<bool>, tdi: seq<bool>, read: bool): (r: seq<Byte>)
    ensures AllClocks(r)
  {
    SameClocks(tms, tdi, read);
    Chars(tms, tdi, read)
  }

  lemma ModeBits(mode: nat, n: nat)
    ensures TmsPairs(ToBits(mode, n)) == ModePairs(mode, n)
  {
    forall i | 0 <= i < n
      ensures ToBits(mode, n)[i] == Bit(mode, i)
    {
      ToBitsAt(mode, n, i);
    }
  }

  lemma CommandIsData(bits: seq<bool>)
    ensures TmsPairs([true]) + DataPairs(bits) == CommandPairs(bits)
  {
    hide ShiftPairs;
    assert TmsPairs([true]) + TO_SHIFT_DR == TO_SHIFT_IR;
    assert TmsPairs([true]) + DataPairs(bits) == (TmsPairs([true]) + TO_SHIFT_DR) + ShiftPairs(bits) + TO_IDLE;
  }

  lemma FastBits(w: Word)
    ensures ToBits(2 * w, 33) == [false] + ToBits(w, 32)
  {
    hide ToBits;
    TwiceBits(w, 32);
  }

  lemma TwiceBits(v: nat, n: nat)
    ensures ToBits(2 * v, n + 1) == [false] + ToBits(v, n)
  {
    assert 2 * v / 2 == v;
  }

  // ----- What is read ---------------------------------------------------------------

  /** The programmer's reply: TDO after each clock that asks for it. */
  function Replies(d: Device, chars: seq<Byte>): seq<bool>
    requires Tap.Valid(d) && AllClocks(chars)
    decreases |chars|
  {
    if chars == [] then []
    else
      var n := |chars| - 1;
      Replies(d, chars[..n]) + (if IsRead(chars[n]) then [Clocks(d, Decoded(chars)).tdo] else [])
  }

  lemma {:induction false} RepliesConcat(d: Device, a: seq<Byte>, b: seq<Byte>)
    requires Tap.Valid(d) && AllClocks(a) && AllClocks(b)
    ensures AllClocks(a + b)
    ensures Replies(d, a + b) == Replies(d, a) + Replies(Clocks(d, Decoded(a)), b)
    decreases |b|
  {
    hide Clocks, Tap.Valid, IsClock, IsRead, Decode;
    DecodedConcat(a, b);
    if b == [] {
      assert a + b == a;
    } else {
      var n := |b| - 1;
      assert (a + b)[..|a + b| - 1] == a + b[..n];
      RepliesConcat(d, a, b[..n]);
      ClocksConcat(d, Decoded(a), Decoded(b));
    }
  }

  lemma {:induction false} NoReplies(d: Device, chars: seq<Byte>)
    requires Tap.Valid(d) && AllClocks(chars)
    requires forall i :: 0 <= i < |chars| ==> !IsRead(chars[i])
    ensures Replies(d, chars) == []
    decreases |chars|
  {
    hide Clocks, Tap.Valid, IsClock, IsRead, Decode;
    if chars != [] {
      NoReplies(d, chars[..|chars| - 1]);
    }
  }

  /** The reads of a register access fall on the clocks after which TDO shows the register,
      bit after bit. */
  lemma {:induction false} RepliesSoFar(d: Device, tdi: seq<bool>, k: nat)
    requires Tap.Valid(d) && d.st.RunTestIdle? && k < |tdi|
    ensures AllClocks(Chars([], tdi, true)[..3 + k])
    ensures Replies(d, Chars([], tdi, true)[..3 + k]) == (Capture(d.regs) + tdi)[..k + 1]
    decreases k
  {
    hide Clocks, Tap.Valid, IsClock, IsRead, Decode, Code, Capture, DataPairs, Chars, Replies;
    var chars, want := Chars([], tdi, true), Capture(d.regs) + tdi;
    SameClocks([], tdi, true);
    ReadPositions(tdi, k);
    DataAccessReads(d, tdi, k);
    DecodedPrefix(tdi, 2 + k);
    DecodedPrefix(tdi, 3 + k);
    RepliesSnoc(d, chars, 2 + k);
    assert want[..k + 1] == want[..k] + [want[k]];
    if k == 0 {
      LeadSilent(tdi);
      NoReplies(d, chars[..2]);
    } else {
      RepliesSoFar(d, tdi, k - 1);
    }
  }

  /** One more clock that asks for TDO. */
  lemma RepliesSnoc(d: Device, chars: seq<Byte>, n: nat)
    requires Tap.Valid(d) && n < |chars| && AllClocks(chars[..n + 1]) && AllClocks(chars[..n]) && IsRead(chars[n])
    ensures Replies(d, chars[..n + 1]) == Replies(d, chars[..n]) + [Clocks(d, Decoded(chars[..n + 1])).tdo]
  {
    hide Clocks, Tap.Valid, IsClock, IsRead, Decode;
    assert chars[..n + 1][..n] == chars[..n];
  }

  lemma DecodedPrefix(tdi: seq<bool>, n: nat)
    requires tdi != [] && n <= |tdi| + 5
    ensures AllClocks(Chars([], tdi, true)[..n])
    ensures Decoded(Chars([], tdi, true)[..n]) == DataPairs(tdi)[..n]
  {
    hide Decode, IsClock;
    SameClocks([], tdi, true);
    assert TmsPairs([]) + DataPairs(tdi) == DataPairs(tdi);
  }

  lemma LeadSilent(tdi: seq<bool>)
    requires tdi != []
    ensures var chars := Chars([], tdi, true); !IsRead(chars[0]) && !IsRead(chars[1])
  {
  }

  /** Which characters ask for TDO. */
  lemma ReadPositions(tdi: seq<bool>, k: nat)
    requires k < |tdi|
    ensures IsRead(Chars([], tdi, true)[2 + k])
  {
    hide Code, IsRead;
    CodeDecodes(false, false, true);
    TdiDecoded(tdi, true);
    if k > 0 {
      assert Chars([], tdi, true)[2 + k] == TdiChars(tdi, true)[k - 1];
    }
  }

  lemma RestSilent(tdi: seq<bool>, i: nat)
    requires tdi != [] && i < 3
    ensures !IsRead(Chars([], tdi, true)[|tdi| + 2 + i])
  {
    hide Code, IsRead;
    CodeDecodes(true, false, false);
    CodeDecodes(false, false, false);
    TdiDecoded(tdi, true);
    if i == 0 {
      assert Chars([], tdi, true)[|tdi| + 2] == TdiChars(tdi, true)[|tdi| - 1];
    }
  }

  /** A reading send on a register of its length: the reply is what the register contained,
      and the register is written. Any number of TMS bits may come first, as long as they
      lead to Run-Test/Idle. */
  lemma ReadsRegister(d: Device, tms: seq<bool>, tdi: seq<bool>)
    requires Tap.Valid(d) && tdi != [] && Clocks(d, TmsPairs(tms)).st.RunTestIdle?
    requires |tdi| == |Capture(Clocks(d, TmsPairs(tms)).regs)|
    ensures var e, chars := Clocks(d, TmsPairs(tms)), Clocking(tms, tdi, true);
            && Replies(d, chars) == Capture(e.regs)
            && Clocks(d, Decoded(chars)).st.RunTestIdle?
            && Clocks(d, Decoded(chars)).regs == Update(e.regs, tdi)
  {
    hide Clocks, Tap.Valid, IsClock, IsRead, Decode, Code, Capture, DataPairs, Update, Replies;
    var e, chars := Clocks(d, TmsPairs(tms)), Chars([], tdi, true);
    SameClocks([], tdi, true);
    SameClocks(tms, tdi, true);
    TmsDecoded(tms);
    TmsSilent(d, tms);
    assert TmsChars([]) == [];
    assert Chars(tms, tdi, true) == TmsChars(tms) + chars;
    RepliesConcat(d, TmsChars(tms), chars);
    assert [] + Replies(e, chars) == Replies(e, chars);
    RepliesAll(e, tdi);
    assert (Capture(e.regs) + tdi)[..|tdi|] == Capture(e.regs);
    ClocksConcat(d, TmsPairs(tms), DataPairs(tdi));
    DataAccess(e, tdi);
    assert (Capture(e.regs) + tdi)[|tdi|..] == tdi;
  }

  lemma TmsSilent(d: Device, tms: seq<bool>)
    requires Tap.Valid(d)
    ensures AllClocks(TmsChars(tms)) && Replies(d, TmsChars(tms)) == []
  {
    hide Clocks, Tap.Valid, IsClock, IsRead, Decode, Code;
    TmsDecoded(tms);
    forall i | 0 <= i < |tms|
      ensures !IsRead(TmsChars(tms)[i])
    {
      CodeDecodes(tms[i], false, false);
    }
    NoReplies(d, TmsChars(tms));
  }

  lemma RepliesAll(d: Device, tdi: seq<bool>)
    requires Tap.Valid(d) && d.st.RunTestIdle? && tdi != []
    ensures AllClocks(Chars([], tdi, true))
    ensures Replies(d, Chars([], tdi, true)) == (Capture(d.regs) + tdi)[..|tdi|]
  {
    hide Clocks, Tap.Valid, IsClock, IsRead, Decode, Code, Capture, Chars, Replies;
    var chars, n := Chars([], tdi, true), |tdi| + 2;
    SameClocks([], tdi, true);
    RepliesSoFar(d, tdi, |tdi| - 1);
    var rest := chars[n..];
    forall i | 0 <= i < |rest|
      ensures !IsRead(rest[i])
    {
      RestSilent(tdi, i);
    }
    DecodedPrefix(tdi, n);
    NoReplies(Clocks(d, Decoded(chars[..n])), rest);
    RepliesConcat(d, chars[..n], rest);
    assert chars[..n] + rest == chars;
  }

  const ONE: Byte := 49
  const ZERO: Byte := 48

  /** The programmer's answer: a digit for each bit that it was asked for. */
  function Answer(bits: seq<bool>): (chars: seq<Byte>)
    ensures |chars| == |bits|
    ensures forall i :: 0 <= i < |chars| ==> chars[i] == if bits[i] then ONE else ZERO
  {
    seq(|bits|, i requires 0 <= i < |bits| => if bits[i] then ONE else ZERO)
  }

  lemma AnswerRead(bits: seq<bool>)
    ensures ReplyBits(Answer(bits)) == bits
  {
  }

  /** A reading send and its receive, with a programmer that clocks the target `d` as it is
      told and answers. The word received is what the register contained, and the register
      is written. */
  method ReadRegister(a: BitbangAdapter, d: Device, tmsNbits: nat, tms: nat, tdiNbits: nat, tdi: nat)
    returns (word: nat, e: Device)
    requires a.bitsToRead == 0 && tmsNbits <= 14 && 0 < tdiNbits <= 32
    requires Tap.Valid(d) && Clocks(d, TmsPairs(ToBits(tms, tmsNbits))).st.RunTestIdle?
    requires |Capture(Clocks(d, TmsPairs(ToBits(tms, tmsNbits))).regs)| == tdiNbits
    modifies a
    ensures var r := Clocks(d, TmsPairs(ToBits(tms, tmsNbits))).regs;
            && word % 0x1_0000_0000 == FromBits(Capture(r)) && (tdiNbits < 32 ==> word == FromBits(Capture(r)))
            && Tap.Valid(e) && e.st.RunTestIdle? && e.regs == Update(r, ToBits(tdi, tdiNbits))
    ensures a.sent == old(a.sent) + Clocking(ToBits(tms, tmsNbits), ToBits(tdi, tdiNbits), true)
    ensures a.bitsToRead == 0 && !a.pendingHandshake
  {
    hide Clocks, Tap.Valid, Capture, Update, Replies, Decoded, TmsPairs, ToBits, FromBits, ReplyBits, Chars, AllClocks,
         After;
    var chars := Clocking(ToBits(tms, tmsNbits), ToBits(tdi, tdiNbits), true);
    ReadsRegister(d, ToBits(tms, tmsNbits), ToBits(tdi, tdiNbits));
    var answer := a.Send(tmsNbits, tms, tdiNbits, tdi, 1);
    assert a.sent == old(a.sent) + chars;
    e := Clocks(d, Decoded(chars));
    AnswerRead(Replies(d, chars));
    word := a.Recv(Answer(Replies(d, chars)));
  }

  /** With read flag 2 the clocks are the same and the reply is PrAcc's bit alone, the first
      one of the register, while the adapter's count of bits to read grows by all of them. */
  lemma FlagTwo(d: Device, tdi: seq<bool>)
    requires Tap.Valid(d) && d.st.RunTestIdle? && tdi != [] && Capture(d.regs) != []
    ensures var chars := FlagChars([], tdi, 2);
            && AllClocks(chars) && Decoded(chars) == DataPairs(tdi) && Replies(d, chars) == [Capture(d.regs)[0]]
            && forall w: Wire :: DoSend(w, chars, true, |tdi|).toRead == w.toRead + |tdi|
  {
    hide Clocks, Tap.Valid, IsClock, IsRead, Decode, Code, Capture, Decoded, AllClocks;
    var chars, rest := FlagChars([], tdi, 2), TdiChars(tdi, false) + TAIL;
    EndsDecoded(true);
    TdiDecoded(tdi, false);
    DecodedConcat(TdiChars(tdi, false), TAIL);
    DecodedConcat(Lead(true), rest);
    assert chars == Lead(true) + rest;
    assert DataPairs(tdi) == TO_SHIFT_DR + (ShiftPairs(tdi) + TO_IDLE);
    TailSilent(tdi);
    NoReplies(Clocks(d, TO_SHIFT_DR), rest);
    RepliesConcat(d, Lead(true), rest);
    LeadReplies(d, tdi);
  }

  lemma TailSilent(tdi: seq<bool>)
    ensures var rest := TdiChars(tdi, false) + TAIL;
            forall i :: 0 <= i < |rest| ==> !IsRead(rest[i])
  {
    hide Code, IsRead;
    TdiDecoded(tdi, false);
    CodeDecodes(true, false, false);
    CodeDecodes(false, false, false);
  }

  lemma LeadReplies(d: Device, tdi: seq<bool>)
    requires Tap.Valid(d) && d.st.RunTestIdle? && tdi != [] && Capture(d.regs) != []
    ensures AllClocks(Lead(true)) && Replies(d, Lead(true)) == [Capture(d.regs)[0]]
  {
    hide Clocks, Tap.Valid, IsClock, IsRead, Decode, Code, Capture, Chars;
    EndsDecoded(true);
    RepliesSoFar(d, tdi, 0);
    LeadFirst(tdi);
    assert (Capture(d.regs) + tdi)[..1] == [Capture(d.regs)[0]];
  }

  lemma LeadFirst(tdi: seq<bool>)
    requires tdi != []
    ensures Chars([], tdi, true)[..3] == Lead(true)
  {
  }
}
