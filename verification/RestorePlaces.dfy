/** Where the restore tool writes, whatever the records of the log (src/user/restore.c:66-105, 136-175). */
module RestorePlaces {
  import opened Bytes
  import opened Options
  import opened Snapblocks
  import opened Restore

  /** What one `write` of the tool puts on the device. */
  datatype Piece = Piece(at: nat, data: seq<byte>)

  function PieceOf(r: Record, s: Progress): Piece {
    var q := Target(r.blknr, |r.payload|, s.devPos, |s.device|);
    Piece(q, r.payload[..Moved(q, |r.payload|, |s.device|)])
  }

  /** Whether record `r` gets as far as the `write`. */
  predicate Writes(r: Record, c: Choice, answers: seq<bool>, asked: nat) {
    Sure(c, answers, r.blknr, asked) && r.kind == RAW && |r.payload| <= MAX_RW
  }

  /** Everything the loop over the records from `i` on writes, in order. */
  function Pieces(rs: seq<Record>, i: nat, c: Choice, answers: seq<bool>, s: Progress): seq<Piece>
    requires i <= |rs|
    decreases |rs| - i
  {
    if i == |rs| then []
    else
      var t := RecordTurn(rs[i], Offset(rs, i + 1), c, answers, s);
      (if Writes(rs[i], c, answers, s.asked) then [PieceOf(rs[i], s)] else [])
      + (if t.More? then Pieces(rs, i + 1, c, answers, t.s) else [])
  }

  // ---------------------------------------------------------------- byte by byte

  predicate Within(p: Piece, k: nat) {
    p.at <= k < p.at + |p.data|
  }

  /** What the last piece over byte `k` has for it. */
  function LastPiece(ps: seq<Piece>, k: nat): Option<byte> {
    if ps == [] then None
    else
      var later := LastPiece(ps[1..], k);
      if later.Some? then later
      else if Within(ps[0], k) then Some(ps[0].data[k - ps[0].at]) else None
  }

  lemma {:induction false} StoredByte(r: Record, next: nat, s: Progress, k: nat)
    requires k < |s.device|
    ensures |StoreRaw(r, next, s).s.device| == |s.device|
    ensures StoreRaw(r, next, s).s.device[k] ==
            if |r.payload| <= MAX_RW && Within(PieceOf(r, s), k) then PieceOf(r, s).data[k - PieceOf(r, s).at]
            else s.device[k]
  {
    hide Splice, Target;
    var p := PieceOf(r, s);
    if |r.payload| <= MAX_RW && p.data != [] {
      SpliceAt(s.device, p.at, p.data, k);
    }
  }

  lemma {:induction false} TurnByte(r: Record, next: nat, c: Choice, answers: seq<bool>, s: Progress, k: nat)
    requires k < |s.device|
    ensures |RecordTurn(r, next, c, answers, s).s.device| == |s.device|
    ensures RecordTurn(r, next, c, answers, s).s.device[k] ==
            if Writes(r, c, answers, s.asked) && Within(PieceOf(r, s), k) then PieceOf(r, s).data[k - PieceOf(r, s).at]
            else s.device[k]
  {
    hide StoreRaw;
    var asked := if c.ask && Chosen(c, r.blknr) then s.asked + 1 else s.asked;
    StoredByte(r, next, s.(asked := asked), k);
    assert PieceOf(r, s.(asked := asked)) == PieceOf(r, s);
  }

  lemma {:induction false} LastPieceCons(p: Piece, ps: seq<Piece>, k: nat)
    ensures LastPiece([p] + ps, k) ==
            if LastPiece(ps, k).Some? then LastPiece(ps, k)
            else if Within(p, k) then Some(p.data[k - p.at]) else None
    ensures LastPiece([], k) == None && [p] + [] == [p] && [] + ps == ps
  {
    assert ([p] + ps)[1..] == ps;
  }

  lemma {:induction false} RunByte(rs: seq<Record>, i: nat, c: Choice, answers: seq<bool>, s: Progress, k: nat)
    requires i <= |rs| && k < |s.device|
    ensures var d := RunRecords(rs, i, c, answers, s).0.device;
            && |d| == |s.device|
            && d[k] == (var last := LastPiece(Pieces(rs, i, c, answers, s), k);
                        if last.Some? then last.value else s.device[k])
    decreases |rs| - i
  {
    hide RecordTurn, PieceOf, Writes, Within, LastPiece, Offset;
    if i < |rs| {
      var t := RecordTurn(rs[i], Offset(rs, i + 1), c, answers, s);
      TurnByte(rs[i], Offset(rs, i + 1), c, answers, s, k);
      var rest := if t.More? then Pieces(rs, i + 1, c, answers, t.s) else [];
      LastPieceCons(PieceOf(rs[i], s), rest, k);
      if t.More? {
        RunByte(rs, i + 1, c, answers, t.s, k);
      }
    } else {
      LastPieceCons(Piece(0, []), [], k);
    }
  }

  /**
   Restoring a log cut anywhere, with records of any kind, size and number, under any options and answers and
   on any device: each byte is that of the last piece written over it, and all others are unchanged.
   */
  lemma {:induction false} RestoredBytes(file: seq<byte>, rs: seq<Record>, m: nat, c: Choice, answers: seq<bool>,
                                         device: seq<byte>, k: nat)
    requires CutLog(file, rs) && WholeRecords(file, rs, m) && k < |device|
    ensures var out := RestoreRun(file, c, answers, Progress(0, device, 0, 0), |rs| + 2);
            && out.Some? && |out.value.0.device| == |device|
            && out.value.0.device[k] ==
               (var last := LastPiece(Pieces(rs[..m], 0, c, answers, Progress(0, device, 0, 0)), k);
                if last.Some? then last.value else device[k])
  {
    hide RestoreRun, RunRecords, Pieces, LastPiece, CutLog;
    RunFrom(file, rs, m, 0, c, answers, Progress(0, device, 0, 0), |rs| + 2);
    RunByte(rs[..m], 0, c, answers, Progress(0, device, 0, 0), k);
  }

  // ---------------------------------------------------------------- every record in its own place

  /** The payloads of the raw records, each wholly and at the place its record names. */
  function OwnPieces(rs: seq<Record>): seq<Piece> {
    if rs == [] then []
    else (if rs[0].kind == RAW then [Piece(Place(rs[0]), rs[0].payload)] else []) + OwnPieces(rs[1..])
  }

  lemma {:induction false} OwnCons(r: Record, rs: seq<Record>)
    ensures OwnPieces([r] + rs) == (if r.kind == RAW then [Piece(Place(r), r.payload)] else []) + OwnPieces(rs)
    ensures OwnPieces([]) == [] && [r] + [] == [r]
  {
    assert ([r] + rs)[1..] == rs;
  }

  lemma {:induction false} AllFitCons(r: Record, rs: seq<Record>, size: nat)
    ensures AllFit([r] + rs, size) <==> Fits(r, size) && AllFit(rs, size)
    ensures AllFit([], size) && (r.kind != RAW ==> Fits(r, size))
  {
    assert r in [r] + rs;
    assert forall q :: q in rs ==> q in [r] + rs;
  }

  lemma {:induction false} PieceFits(r: Record, s: Progress)
    requires r.kind == RAW && |s.device| < TWO63 && |r.payload| <= MAX_RW
    ensures PieceOf(r, s) == Piece(Place(r), r.payload) <==> Fits(r, |s.device|)
  {
    var q := Target(r.blknr, |r.payload|, s.devPos, |s.device|);
    var put := Moved(q, |r.payload|, |s.device|);
    assert put == |r.payload| <==> r.payload[..put] == r.payload;
  }

  lemma {:induction false} SameHead(p: Piece, ps: seq<Piece>, q: Piece, qs: seq<Piece>)
    ensures [p] + ps == [q] + qs <==> p == q && ps == qs
    ensures [] + ps == ps && [] + qs == qs
  {
    var a, b := [p] + ps, [q] + qs;
    assert a[0] == p && a[1..] == ps && b[0] == q && b[1..] == qs;
  }

  /** Whether a record fits decides how its turn ends. */
  lemma {:induction false} FittingTurn(r: Record, next: nat, c: Choice, answers: seq<bool>, s: Progress)
    requires Sure(c, answers, r.blknr, s.asked) && |s.device| < TWO63
    ensures var t := RecordTurn(r, next, c, answers, s);
            && |t.s.device| == |s.device|
            && (Fits(r, |s.device|) ==> if c.restoreAll then t.More? else t.Stop?)
            && (|r.payload| > MAX_RW && r.kind == RAW ==> t.Exit?)
            && t.s.asked == if c.ask then s.asked + 1 else s.asked
  {
    hide Splice, WriteAt;
  }

  lemma {:induction false} PassedTurn(r: Record, next: nat, c: Choice, answers: seq<bool>, s: Progress)
    requires !Sure(c, answers, r.blknr, s.asked)
    ensures var t := RecordTurn(r, next, c, answers, s);
            t.More? && t.s.device == s.device && t.s.asked == if c.ask && Chosen(c, r.blknr) then s.asked + 1 else s.asked
  {
  }

  /** The first confirmed record, in front of `rest` for which the claim holds if the loop gets there. */
  lemma {:induction false} HeadInPlace(r: Record, next: nat, c: Choice, answers: seq<bool>, s: Progress,
                                       rest: seq<Record>, later: seq<Piece>)
    requires Sure(c, answers, r.blknr, s.asked) && |s.device| < TWO63
    requires if RecordTurn(r, next, c, answers, s).More? then later == OwnPieces(rest) <==> AllFit(rest, |s.device|)
             else later == []
    requires !c.restoreAll ==> rest == []
    ensures (if Writes(r, c, answers, s.asked) then [PieceOf(r, s)] else []) + later == OwnPieces([r] + rest) <==>
            AllFit([r] + rest, |s.device|)
  {
    hide RecordTurn, PieceOf, Place, OwnPieces, AllFit, Fits, Sure;
    FittingTurn(r, next, c, answers, s);
    OwnCons(r, rest);
    AllFitCons(r, rest, |s.device|);
    SameHead(PieceOf(r, s), later, Piece(Place(r), r.payload), OwnPieces(rest));
    if r.kind == RAW && |r.payload| <= MAX_RW {
      PieceFits(r, s);
    } else if r.kind == RAW {
      LongNeverFits(r, |s.device|);
    }
  }

  lemma {:induction false} LongNeverFits(r: Record, size: nat)
    requires r.kind == RAW && |r.payload| > MAX_RW
    ensures !Fits(r, size)
  {
  }

  lemma {:induction false} ConfirmedHead(rs: seq<Record>, i: nat, c: Choice, answers: seq<bool>, asked: nat)
    requires i < |rs| && Sure(c, answers, rs[i].blknr, asked)
    ensures Confirmed(rs, i, c, answers, asked) ==
            [rs[i]] + if c.restoreAll then Confirmed(rs, i + 1, c, answers, if c.ask then asked + 1 else asked) else []
  {
  }

  lemma {:induction false} ConfirmedPassed(rs: seq<Record>, i: nat, c: Choice, answers: seq<bool>, asked: nat)
    requires i < |rs| && !Sure(c, answers, rs[i].blknr, asked)
    ensures Confirmed(rs, i, c, answers, asked) ==
            Confirmed(rs, i + 1, c, answers, if c.ask && Chosen(c, rs[i].blknr) then asked + 1 else asked)
  {
  }

  /**
   For any records, options, answers and device: what the tool writes is exactly the confirmed raw payloads,
   each wholly, each at its own place, and in log order, if and only if every confirmed record fits.
   */
  lemma {:induction false} InPlaceExactly(rs: seq<Record>, i: nat, c: Choice, answers: seq<bool>, s: Progress)
    requires i <= |rs| && |s.device| < TWO63
    ensures Pieces(rs, i, c, answers, s) == OwnPieces(Confirmed(rs, i, c, answers, s.asked)) <==>
            AllFit(Confirmed(rs, i, c, answers, s.asked), |s.device|)
    decreases |rs| - i
  {
    hide RecordTurn, PieceOf, Place, OwnPieces, AllFit, Confirmed, Sure, Offset;
    if i == |rs| {
      NothingInPlace(rs, c, answers, s);
    } else {
      var r, next := rs[i], Offset(rs, i + 1);
      var t := RecordTurn(r, next, c, answers, s);
      if Sure(c, answers, r.blknr, s.asked) {
        FittingTurn(r, next, c, answers, s);
        ConfirmedHead(rs, i, c, answers, s.asked);
        var rest := if c.restoreAll then Confirmed(rs, i + 1, c, answers, t.s.asked) else [];
        var later := if t.More? then Pieces(rs, i + 1, c, answers, t.s) else [];
        if t.More? && c.restoreAll {
          InPlaceExactly(rs, i + 1, c, answers, t.s);
        }
        if !c.restoreAll {
          OneRecordAtMost(r, next, c, answers, s);
        }
        HeadInPlace(r, next, c, answers, s, rest, later);
      } else {
        PassedTurn(r, next, c, answers, s);
        ConfirmedPassed(rs, i, c, answers, s.asked);
        InPlaceExactly(rs, i + 1, c, answers, t.s);
      }
    }
  }

  lemma {:induction false} OneRecordAtMost(r: Record, next: nat, c: Choice, answers: seq<bool>, s: Progress)
    requires Sure(c, answers, r.blknr, s.asked) && !c.restoreAll
    ensures !RecordTurn(r, next, c, answers, s).More?
  {
  }

  lemma {:induction false} NothingInPlace(rs: seq<Record>, c: Choice, answers: seq<bool>, s: Progress)
    ensures Confirmed(rs, |rs|, c, answers, s.asked) == [] && OwnPieces([]) == [] && AllFit([], |s.device|)
  {
  }
}
