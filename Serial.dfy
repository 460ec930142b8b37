/** The UART side of the demo: the receive interrupt decodes ASCII digits into
    filter window sizes, and the transmit interrupt drains one outbound C string
    through a cursor (pcNextChar) that to_terminal sets up. */
module Serial {
  import opened Common

  // ---------------------------------------------------------------------------
  // Receive: digit decoding
  // ---------------------------------------------------------------------------

  /** The receive branch of vUART_ISR: the word read from the data register is
      accepted only when it is an ASCII digit; '0' selects the largest window
      and '1'..'9' select windows 1..9. Anything else is dropped. */
  function DecodeDigit(rx: nat): (r: Option<WindowSize>)
    ensures r.Some? <==> 48 <= rx <= 57
  {
    if 48 <= rx && rx <= 57 then
      var d := rx - 48;
      if d == 0 then Some(MaxWindow) else Some(d)
    else None
  }

  /** The character an operator types to select window size n. */
  function DigitFor(n: WindowSize): (rx: nat)
    ensures 48 <= rx <= 57
    ensures DecodeDigit(rx) == Some(n)
  {
    if n == MaxWindow then 48 else 48 + n
  }

  /** Decoding is exact: a word yields window n precisely when it is the digit for n. */
  lemma DecodeDigitExact(rx: nat, n: WindowSize)
    ensures DecodeDigit(rx) == Some(n) <==> rx == DigitFor(n)
  {
  }

  // ---------------------------------------------------------------------------
  // Transmit: the cursor over the outbound message
  // ---------------------------------------------------------------------------

  /** a can be obtained from b by deleting characters. */
  predicate IsSubseq(a: seq<char>, b: seq<char>)
    decreases |b|
  {
    a == [] || (b != [] && (IsSubseq(a, b[1..]) || (a[0] == b[0] && IsSubseq(a[1..], b[1..]))))
  }

  /** The cursor position and the bytes written to the data register so far. */
  datatype TxState = TxState(cursor: nat, sent: seq<char>)

  /** One transmit interrupt: a non-terminator byte under the cursor is written unless
      the transmit FIFO is full, and the cursor moves past it either way; at the
      terminator nothing happens. */
  function TxStep(msg: seq<char>, st: TxState, txFull: bool): (r: TxState)
    requires TerminatedFrom(msg, st.cursor)
    ensures TerminatedFrom(msg, r.cursor)
    ensures r.cursor == if msg[st.cursor] == Nul then st.cursor else st.cursor + 1
    ensures |st.sent| <= |r.sent| <= |st.sent| + 1 && r.sent[..|st.sent|] == st.sent
    ensures |r.sent| == |st.sent| + 1 ==> r.sent[|st.sent|] == msg[st.cursor] != Nul
  {
    if msg[st.cursor] != Nul then
      TxState(st.cursor + 1, if txFull then st.sent else st.sent + [msg[st.cursor]])
    else
      st
  }

  /** A run of transmit interrupts; fulls[k] is the TXFF flag seen by the k-th one. */
  function Drain(msg: seq<char>, st: TxState, fulls: seq<bool>): (r: TxState)
    requires TerminatedFrom(msg, st.cursor)
    ensures TerminatedFrom(msg, r.cursor)
    ensures st.cursor <= r.cursor
    decreases |fulls|
  {
    if fulls == [] then st else Drain(msg, TxStep(msg, st, fulls[0]), fulls[1..])
  }

  /** to_terminal: point the cursor at s, write s[0] unless the FIFO is full, and
      advance past s[0] unconditionally. */
  function StartSending(s: seq<char>, sent: seq<char>, txFull: bool): TxState
    requires |s| > 0
  {
    TxState(1, if txFull then sent else sent + [s[0]])
  }

  /** A whole transmission as the source performs it: to_terminal, then the interrupts. */
  function Session(msg: seq<char>, firstFull: bool, fulls: seq<bool>): (r: TxState)
    requires |msg| > 0 && TerminatedFrom(msg, 1)
    ensures 1 <= r.cursor && TerminatedFrom(msg, r.cursor)
  {
    Drain(msg, StartSending(msg, [], firstFull), fulls)
  }

  /** The corrected start: an empty string (a terminator at s[0]) sends nothing and
      leaves the cursor on that terminator. */
  function StartSendingGuarded(s: seq<char>, sent: seq<char>, txFull: bool): (r: TxState)
    requires TerminatedFrom(s, 0)
    ensures TerminatedFrom(s, r.cursor) && r.cursor <= |CString(s, 0)|
    ensures |sent| <= |r.sent| <= |sent| + 1 && r.sent[..|sent|] == sent
    ensures |r.sent| == |sent| + 1 ==> r.sent[|sent|] == s[0] != Nul
  {
    if s[0] == Nul then TxState(0, sent) else StartSending(s, sent, txFull)
  }

  /** A whole transmission with the corrected start. */
  function GuardedSession(msg: seq<char>, firstFull: bool, fulls: seq<bool>): (r: TxState)
    requires TerminatedFrom(msg, 0)
    ensures TerminatedFrom(msg, r.cursor)
  {
    Drain(msg, StartSendingGuarded(msg, [], firstFull), fulls)
  }

  predicate NeverFull(fulls: seq<bool>)
  {
    forall k :: 0 <= k < |fulls| ==> !fulls[k]
  }

  /** Whatever the FIFO does, the interrupts append an in-order selection of the
      characters from the cursor up to the terminator, and never move the cursor
      past that terminator. */
  lemma {:induction false} DrainSendsSubsequence(msg: seq<char>, st: TxState, fulls: seq<bool>)
    requires TerminatedFrom(msg, st.cursor)
    ensures var r := Drain(msg, st, fulls);
      |st.sent| <= |r.sent| && r.sent[..|st.sent|] == st.sent &&
      IsSubseq(r.sent[|st.sent|..], CString(msg, st.cursor)) &&
      r.cursor <= st.cursor + |CString(msg, st.cursor)|
    decreases |fulls|
  {
    if fulls != [] {
      var s1 := TxStep(msg, st, fulls[0]);
      DrainSendsSubsequence(msg, s1, fulls[1..]);
      var r := Drain(msg, st, fulls);
      assert r == Drain(msg, s1, fulls[1..]);
      if msg[st.cursor] != Nul {
        var rest := CString(msg, st.cursor + 1);
        assert CString(msg, st.cursor) == [msg[st.cursor]] + rest;
        SentExtends(st.sent, s1.sent, r.sent, msg[st.cursor], rest);
      }
    }
  }

  /** One interrupt that wrote c or nothing, followed by a run that wrote a selection of
      rest, together wrote a selection of c followed by rest. */
  lemma SentExtends(before: seq<char>, mid: seq<char>, after: seq<char>, c: char, rest: seq<char>)
    requires |before| <= |mid| <= |before| + 1 && mid[..|before|] == before
    requires |mid| == |before| + 1 ==> mid[|before|] == c
    requires |mid| <= |after| && after[..|mid|] == mid && IsSubseq(after[|mid|..], rest)
    ensures |before| <= |after| && after[..|before|] == before
    ensures IsSubseq(after[|before|..], [c] + rest)
  {
    var w := after[|mid|..];
    if |mid| == |before| {
      assert after[|before|..] == w;
      SubseqSkip(w, c, rest);
    } else {
      assert after[|before|..] == [c] + w;
      SubseqKeep(w, c, rest);
    }
  }

  /** Dropping the first character of the longer text keeps a selection a selection. */
  lemma SubseqSkip(w: seq<char>, c: char, rest: seq<char>)
    requires IsSubseq(w, rest)
    ensures IsSubseq(w, [c] + rest)
  {
    assert ([c] + rest)[1..] == rest;
  }

  /** Keeping the first character on both sides keeps a selection a selection. */
  lemma SubseqKeep(w: seq<char>, c: char, rest: seq<char>)
    requires IsSubseq(w, rest)
    ensures IsSubseq([c] + w, [c] + rest)
  {
    assert ([c] + w)[1..] == w;
    assert ([c] + rest)[1..] == rest;
  }

  /** If the FIFO is never seen full and there are enough interrupts, the interrupts
      send exactly the characters up to the terminator and leave the cursor on it. */
  lemma {:induction false} DrainSendsAll(msg: seq<char>, st: TxState, fulls: seq<bool>)
    requires TerminatedFrom(msg, st.cursor)
    requires NeverFull(fulls) && |fulls| >= |CString(msg, st.cursor)|
    ensures Drain(msg, st, fulls) ==
      TxState(st.cursor + |CString(msg, st.cursor)|, st.sent + CString(msg, st.cursor))
    decreases |fulls|
  {
    var c := st.cursor;
    if msg[c] == Nul {
      DrainAtTerminator(msg, st, fulls);
    } else {
      var rest := CString(msg, c + 1);
      assert CString(msg, c) == [msg[c]] + rest;
      assert !fulls[0];
      var s1 := TxStep(msg, st, fulls[0]);
      assert s1 == TxState(c + 1, st.sent + [msg[c]]);
      assert NeverFull(fulls[1..]) by {
        forall k | 0 <= k < |fulls[1..]| ensures !fulls[1..][k] {
          assert fulls[1..][k] == fulls[k + 1];
        }
      }
      DrainSendsAll(msg, s1, fulls[1..]);
      assert Drain(msg, st, fulls) == Drain(msg, s1, fulls[1..]);
      assert st.sent + [msg[c]] + rest == st.sent + CString(msg, c);
    }
  }

  /** With the cursor on a terminator the interrupts change nothing. */
  lemma {:induction false} DrainAtTerminator(msg: seq<char>, st: TxState, fulls: seq<bool>)
    requires TerminatedFrom(msg, st.cursor) && msg[st.cursor] == Nul
    ensures Drain(msg, st, fulls) == st
    decreases |fulls|
  {
    if fulls != [] {
      DrainAtTerminator(msg, st, fulls[1..]);
    }
  }

  /** A non-empty message is sent as an in-order selection of its characters; the
      terminator is never sent. */
  lemma SessionSendsSubsequence(msg: seq<char>, firstFull: bool, fulls: seq<bool>)
    requires |msg| > 0 && msg[0] != Nul && TerminatedFrom(msg, 1)
    ensures IsSubseq(Session(msg, firstFull, fulls).sent, CString(msg, 0))
  {
    var s0 := StartSending(msg, [], firstFull);
    DrainSendsSubsequence(msg, s0, fulls);
    var r := Session(msg, firstFull, fulls);
    var rest := CString(msg, 1);
    assert CString(msg, 0) == [msg[0]] + rest;
    assert ([msg[0]] + rest)[1..] == rest;
    var w := r.sent[|s0.sent|..];
    if firstFull {
      assert r.sent == w;
    } else {
      assert r.sent == [msg[0]] + w;
      assert r.sent[1..] == w;
    }
  }

  /** A non-empty message is sent whole, in order and without its terminator, when
      the FIFO is never seen full and one interrupt arrives per remaining character. */
  lemma SessionSendsMessage(msg: seq<char>, fulls: seq<bool>)
    requires |msg| > 0 && msg[0] != Nul && TerminatedFrom(msg, 1)
    requires NeverFull(fulls) && |fulls| + 1 >= |CString(msg, 0)|
    ensures Session(msg, false, fulls).sent == CString(msg, 0)
    ensures Session(msg, false, fulls).cursor == |CString(msg, 0)|
  {
    assert CString(msg, 0) == [msg[0]] + CString(msg, 1);
    DrainSendsAll(msg, StartSending(msg, [], false), fulls);
  }

  /** As written, an empty string is not empty on the wire: to_terminal writes its
      terminator and steps over it, and the interrupts then send whatever C string
      follows in the buffer. */
  lemma EmptyMessageSendsStaleTail(msg: seq<char>, fulls: seq<bool>)
    requires |msg| > 0 && msg[0] == Nul && TerminatedFrom(msg, 1)
    requires NeverFull(fulls) && |fulls| >= |CString(msg, 1)|
    ensures CString(msg, 0) == []
    ensures Session(msg, false, fulls).sent == [Nul] + CString(msg, 1)
  {
    var st := StartSending(msg, [], false);
    assert st == TxState(1, [Nul]);
    assert Session(msg, false, fulls) == Drain(msg, st, fulls);
    DrainSendsAll(msg, st, fulls);
  }

  /** A concrete instance: a report buffer cleared to "" that still holds "ok" from an
      earlier report puts a NUL byte and "ok" on the line. */
  lemma EmptyReportLeaksOldText()
    ensures var msg := [Nul, 'o', 'k', Nul];
      TerminatedFrom(msg, 1) && CString(msg, 0) == [] &&
      Session(msg, false, [false, false]).sent == [Nul, 'o', 'k']
  {
    var msg := [Nul, 'o', 'k', Nul];
    assert msg[3] == Nul;
    assert TerminatedFrom(msg, 1);
    assert CString(msg, 1) == ['o', 'k'] by {
      assert msg[2] == 'k' && msg[1] == 'o';
      assert CString(msg, 3) == [];
    }
    EmptyMessageSendsStaleTail(msg, [false, false]);
  }

  /** With the corrected start every message, empty or not, is sent exactly up to its
      terminator when the FIFO is never seen full. */
  lemma GuardedSessionSendsMessage(msg: seq<char>, fulls: seq<bool>)
    requires TerminatedFrom(msg, 0)
    requires NeverFull(fulls) && |fulls| >= |CString(msg, 0)|
    ensures GuardedSession(msg, false, fulls).sent == CString(msg, 0)
  {
    if msg[0] == Nul {
      DrainAtTerminator(msg, TxState(0, []), fulls);
    } else {
      SessionSendsMessage(msg, fulls);
    }
  }

  // ---------------------------------------------------------------------------
  // The interrupt handler and to_terminal on the shared UART state
  // ---------------------------------------------------------------------------

  /** The state shared by vUART_ISR and to_terminal. */
  class SerialLine {
    var message: seq<char>        // the memory pcNextChar points into
    var cursor: nat               // pcNextChar, as an index into message
    var sent: seq<char>           // every byte written to the UART data register, in order
    var control: seq<WindowSize>  // window sizes the receive branch queued for the filter

    ghost predicate Valid()
      reads this
    {
      TerminatedFrom(message, cursor)
    }

    /** Before the first to_terminal the transmit interrupt is disabled; the model
        starts idle, on an empty string. */
    constructor ()
      ensures Valid()
      ensures message == [Nul] && cursor == 0 && sent == [] && control == []
    {
      assert [Nul][0] == Nul;
      message := [Nul];
      cursor := 0;
      sent := [];
      control := [];
    }

    /** to_terminal as written. The caller's buffer must hold a terminator after s[0],
        since the cursor is moved past s[0] whatever it holds. */
    method ToTerminal(s: seq<char>, txFull: bool)
      requires |s| > 0 && TerminatedFrom(s, 1)
      modifies this
      ensures Valid() && message == s && control == old(control)
      ensures TxState(cursor, sent) == StartSending(s, old(sent), txFull)
    {
      message := s;
      cursor := 0;
      if !txFull {
        sent := sent + [message[cursor]];
      }
      cursor := cursor + 1;
    }

    /** to_terminal with the corrected start: an empty string sends nothing. */
    method ToTerminalGuarded(s: seq<char>, txFull: bool)
      requires TerminatedFrom(s, 0)
      modifies this
      ensures Valid() && message == s && control == old(control)
      ensures TxState(cursor, sent) == StartSendingGuarded(s, old(sent), txFull)
    {
      message := s;
      cursor := 0;
      if message[cursor] != Nul {
        if !txFull {
          sent := sent + [message[cursor]];
        }
        cursor := cursor + 1;
      }
    }

    /** The transmit branch of vUART_ISR. */
    method TxInterrupt(txFull: bool)
      requires Valid()
      modifies this
      ensures Valid() && message == old(message) && control == old(control)
      ensures TxState(cursor, sent) == TxStep(message, old(TxState(cursor, sent)), txFull)
    {
      if message[cursor] != Nul {
        if !txFull {
          sent := sent + [message[cursor]];
        }
        cursor := cursor + 1;
      }
    }

    /** The receive branch of vUART_ISR: a digit queues its window size for the filter. */
    method RxInterrupt(rx: nat)
      modifies this
      ensures message == old(message) && cursor == old(cursor) && sent == old(sent)
      ensures DecodeDigit(rx).Some? ==> control == old(control) + [DecodeDigit(rx).value]
      ensures DecodeDigit(rx).None? ==> control == old(control)
    {
      if 48 <= rx && rx <= 57 {
        var n: WindowSize;
        if rx - 48 == 0 {
          n := 10;
        } else {
          n := rx - 48;
        }
        control := control + [n];
      }
    }

    /** vUART_ISR: the transmit branch when a transmit interrupt is pending, then the
        receive branch when a receive interrupt is pending. */
    method UartIsr(txPending: bool, rxPending: bool, txFull: bool, rx: nat)
      requires Valid()
      modifies this
      ensures Valid() && message == old(message)
      ensures TxState(cursor, sent) ==
        if txPending then TxStep(message, old(TxState(cursor, sent)), txFull) else old(TxState(cursor, sent))
      ensures control == if rxPending && DecodeDigit(rx).Some? then old(control) + [DecodeDigit(rx).value] else old(control)
    {
      if txPending {
        TxInterrupt(txFull);
      }
      if rxPending {
        RxInterrupt(rx);
      }
    }
  }
}
