/** On which files the loop of the restore tool ends (src/user/restore.c:66-116, 136-175). */
module RestoreHalts {
  import opened Bytes
  import opened Snapblocks
  import opened Restore

  // ---------------------------------------------------------------- headers that lead forward

  /** The relative seek over extended header and payload ends behind the start of an advancing header. */
  lemma {:induction false} SkipIsForward(off: nat, h: Header)
    requires Advances(h, off) && off + HDR_SIZE < TWO63
    ensures PastPayload(off + HDR_SIZE, h) > off
  {
    var a := Advance(h);
    assert Wrap64(h.payldOff + h.payldsiz - HDR_SIZE) == if a >= HDR_SIZE then a - HDR_SIZE else a - HDR_SIZE + TWO64;
  }

  /** So does the seek to the payload followed by the read of all of it. */
  lemma {:induction false} ReadIsForward(file: seq<byte>, off: nat, h: Header)
    requires Advances(h, off) && off + HDR_SIZE <= |file| < TWO63
    requires |ReadPayload(file, h, off + HDR_SIZE).1| == h.payldsiz
    ensures ReadPayload(file, h, off + HDR_SIZE).0 > off
  {
    var a := Advance(h);
    assert Wrap64(h.payldOff - HDR_SIZE) == if h.payldOff >= HDR_SIZE then h.payldOff - HDR_SIZE else h.payldOff - HDR_SIZE + TWO64;
  }

  lemma {:induction false} RawTurnIsForward(file: seq<byte>, off: nat, h: Header, s: Progress)
    requires Advances(h, off) && off + HDR_SIZE <= |file| < TWO63 && s.pos == off + HDR_SIZE
    requires RawTurn(file, h, s).More?
    ensures RawTurn(file, h, s).s.pos > off
  {
    hide ReadPayload, WriteAt, Target, Advances;
    ReadIsForward(file, off, h);
  }

  lemma {:induction false} TurnIsForward(file: seq<byte>, c: Choice, answers: seq<bool>, s: Progress)
    requires |file| < TWO63 && RestoreTurn(file, c, answers, s).More?
    requires ReadHeader(file, s.pos).Some? ==> Advances(ReadHeader(file, s.pos).value, s.pos)
    ensures s.pos + HDR_SIZE <= |file| && RestoreTurn(file, c, answers, s).s.pos > s.pos
  {
    hide RawTurn, PastPayload, DecodeHeader, Advances;
    var h, at := ReadHeader(file, s.pos).value, s.(pos := s.pos + HDR_SIZE);
    SkipIsForward(s.pos, h);
    if h.payldType == RAW {
      var ready := if c.ask then at.(asked := at.asked + 1) else at;
      if RawTurn(file, h, ready).More? {
        RawTurnIsForward(file, s.pos, h, ready);
      }
    }
  }

  /** Every header that the loop reads in its next `turns` turns advances. */
  predicate MetAdvance(file: seq<byte>, c: Choice, answers: seq<bool>, s: Progress, turns: nat)
    decreases turns
  {
    turns == 0 ||
    (match ReadHeader(file, s.pos)
     case None => true
     case Some(h) =>
       && Advances(h, s.pos)
       && var t := RestoreTurn(file, c, answers, s);
          t.More? ==> MetAdvance(file, c, answers, t.s, turns - 1))
  }

  lemma {:induction false} AllAdvanceMet(file: seq<byte>, c: Choice, answers: seq<bool>, s: Progress, turns: nat)
    requires AllAdvance(file)
    ensures MetAdvance(file, c, answers, s, turns)
    decreases turns
  {
    hide RestoreTurn, Advances, DecodeHeader;
    if turns > 0 && ReadHeader(file, s.pos).Some? {
      var t := RestoreTurn(file, c, answers, s);
      if t.More? {
        AllAdvanceMet(file, c, answers, t.s, turns - 1);
      }
    }
  }

  /** If every header it reads advances, the tool ends, under any options and answers, on any file and any device. */
  lemma {:induction false} AdvancingRunHalts(file: seq<byte>, c: Choice, answers: seq<bool>, s: Progress, turns: nat)
    requires |file| < TWO63 && turns > 0 && s.pos + turns > |file|
    requires MetAdvance(file, c, answers, s, turns)
    ensures RestoreRun(file, c, answers, s, turns).Some?
    decreases turns
  {
    hide HeaderTurn, ReadHeader, Advances;
    var t := RestoreTurn(file, c, answers, s);
    if t.More? {
      TurnIsForward(file, c, answers, s);
      AdvancingRunHalts(file, c, answers, t.s, turns - 1);
    }
  }

  // ---------------------------------------------------------------- a header that leads to itself

  /** The options and answers under which the tool passes over a header for ever, or restores it for ever. */
  ghost predicate PassesForEver(h: Header, c: Choice, answers: seq<bool>, asked: nat) {
    || !Chosen(c, h.blknr)
    || (c.restoreAll && (h.payldType != RAW || h.payldsiz == 0))
    || (c.ask && forall i: nat :: i >= asked ==> !Yes(answers, i))
  }

  lemma {:induction false} SkipInPlace(h: Header)
    requires Advance(h) == 0
    ensures PastPayload(HDR_SIZE, h) == 0
  {
    assert Wrap64(h.payldOff + h.payldsiz - HDR_SIZE) == TWO64 - HDR_SIZE;
  }

  /** With the header read and nothing behind it, the raw branch goes back to the header or gives up. */
  lemma {:induction false} RawInPlace(file: seq<byte>, h: Header, s: Progress)
    requires Advance(h) == 0 && |file| == HDR_SIZE && s.pos == HDR_SIZE
    ensures if h.payldsiz == 0 then RawTurn(file, h, s).More? && RawTurn(file, h, s).s.pos == 0
            else RawTurn(file, h, s).Exit?
    ensures RawTurn(file, h, s).s.asked == s.asked
  {
    hide WriteAt, Target;
    if h.payldsiz == 0 {
      assert h.payldOff == 0;
    } else {
      assert h.payldOff + h.payldsiz == TWO64;
      ShortRead(file, h);
    }
  }

  lemma {:induction false} ShortRead(file: seq<byte>, h: Header)
    requires h.payldOff + h.payldsiz == TWO64 && h.payldsiz > 0 && |file| == HDR_SIZE
    ensures |ReadPayload(file, h, HDR_SIZE).1| != h.payldsiz
  {
    var x := Wrap64(h.payldOff - HDR_SIZE);
    assert x == if h.payldOff >= HDR_SIZE then h.payldOff - HDR_SIZE else h.payldOff - HDR_SIZE + TWO64;
  }

  /** One turn on such a header alone: the tool is at the header again, or it ends. */
  lemma {:induction false} TurnInPlace(h: Header, c: Choice, answers: seq<bool>, s: Progress)
    requires h.magic == MAGIC && Advance(h) == 0 && s.pos == 0
    ensures var t := RestoreTurn(EncodeHeader(h), c, answers, s);
            && (t.More? <==> !Sure(c, answers, h.blknr, s.asked) || (c.restoreAll && (h.payldType != RAW || h.payldsiz == 0)))
            && (t.More? ==> t.s.pos == 0 && t.s.asked == if c.ask && Chosen(c, h.blknr) then s.asked + 1 else s.asked)
  {
    hide PastPayload, RawTurn, ReadHeader, EncodeHeader;
    OnlyHeader(h, 0);
    SkipInPlace(h);
    RawInPlace(EncodeHeader(h), h, s.(pos := HDR_SIZE));
    RawInPlace(EncodeHeader(h), h, s.(pos := HDR_SIZE, asked := s.asked + 1));
  }

  lemma {:induction false} Spinning(h: Header, c: Choice, answers: seq<bool>, s: Progress, turns: nat)
    requires h.magic == MAGIC && Advance(h) == 0 && s.pos == 0 && PassesForEver(h, c, answers, s.asked)
    ensures RestoreRun(EncodeHeader(h), c, answers, s, turns).None?
    decreases turns
  {
    hide RestoreTurn, EncodeHeader, Yes;
    if turns > 0 {
      TurnInPlace(h, c, answers, s);
      Spinning(h, c, answers, RestoreTurn(EncodeHeader(h), c, answers, s).s, turns - 1);
    }
  }

  /** The next confirmation, if there is one, ends the run. */
  lemma {:induction false} Ending(h: Header, c: Choice, answers: seq<bool>, s: Progress, i: nat) returns (turns: nat)
    requires h.magic == MAGIC && Advance(h) == 0 && s.pos == 0 && !PassesForEver(h, c, answers, s.asked)
    requires c.ask ==> s.asked <= i && Yes(answers, i)
    ensures RestoreRun(EncodeHeader(h), c, answers, s, turns).Some?
    decreases if c.ask then i - s.asked else 0
  {
    hide RestoreTurn, EncodeHeader, Yes;
    TurnInPlace(h, c, answers, s);
    var t := RestoreTurn(EncodeHeader(h), c, answers, s);
    turns := 1;
    if t.More? {
      assert c.ask && s.asked != i;
      turns := Ending(h, c, answers, t.s, i);
      turns := turns + 1;
    }
  }

  /**
   On a single header the tool never ends if and only if the header advances by 0 modulo 2^64 and is passed
   over for ever: by the options, because every further prompt is declined, or because restoring it moves
   nothing.
   */
  lemma {:induction false} RestoreSpins(h: Header, c: Choice, answers: seq<bool>, s: Progress)
    requires h.magic == MAGIC && s.pos == 0
    ensures (forall turns: nat :: RestoreRun(EncodeHeader(h), c, answers, s, turns).None?) <==>
            Advance(h) == 0 && PassesForEver(h, c, answers, s.asked)
  {
    hide RestoreRun, EncodeHeader, Yes, Advance;
    if Advance(h) != 0 {
      OneHeaderAdvances(h);
      AllAdvanceMet(EncodeHeader(h), c, answers, s, HDR_SIZE + 1);
      AdvancingRunHalts(EncodeHeader(h), c, answers, s, HDR_SIZE + 1);
    } else if PassesForEver(h, c, answers, s.asked) {
      forall turns: nat
        ensures RestoreRun(EncodeHeader(h), c, answers, s, turns).None?
      {
        Spinning(h, c, answers, s, turns);
      }
    } else {
      var i := s.asked;
      if c.ask {
        i :| i >= s.asked && Yes(answers, i);
      }
      var turns := Ending(h, c, answers, s, i);
    }
  }
}
