/**
 The per-slot sysgen state machine of the Common I/O bus: INT0 and INT1 accesses in either
 order bring a card up, further ones start jobs, RESET and some jobs take it down again.
 */
module CioSysgen {

  datatype Line = Int0 | Int1 | Reset

  /** An access by read or write; clears says that the card routine it runs, if it runs one,
   takes the card back to its initial state. */
  datatype Access = Access(line: Line, clears: bool)

  /** What an access makes the card do. */
  datatype Effect = Identify | Ignore | Sysgen | Express | Full | ResetCard | Error

  predicate RunsRoutine(e: Effect) { e.Sysgen? || e.Express? || e.Full? }

  const NONE: nat := 0
  const INT0: nat := 1
  const INT1: nat := 2
  const SYSGEN: nat := 3

  /** What the access does in a given state; the state byte outside 0 to 3 is the error arm. */
  function EffectIn(s: nat, line: Line): Effect {
    match line
    case Reset => ResetCard
    case Int0 =>
      if s == NONE || s == INT0 then Identify
      else if s == INT1 then Sysgen
      else if s == SYSGEN then Express
      else Error
    case Int1 =>
      if s == NONE || s == INT1 then Ignore
      else if s == INT0 then Sysgen
      else if s == SYSGEN then Full
      else Error
  }

  /** The state after an access: which lines have been used, or nothing if the card was taken
   down by a RESET or by the routine the access ran. */
  function Next(s: nat, a: Access): nat {
    var e := EffectIn(s, a.line);
    if e.ResetCard? then NONE
    else if e.Error? then s
    else if RunsRoutine(e) && a.clears then NONE
    else if a.line.Int0? then (if s == NONE || s == INT0 then INT0 else SYSGEN)
    else (if s == NONE || s == INT1 then INT1 else SYSGEN)
  }

  /** The state before the i-th access. */
  function StateAt(h: seq<Access>, i: nat): nat
    requires i <= |h|
  {
    if i == 0 then NONE else Next(StateAt(h, i - 1), h[i - 1])
  }

  function EffectAt(h: seq<Access>, i: nat): Effect
    requires i < |h|
  {
    EffectIn(StateAt(h, i), h[i].line)
  }

  // ------------------------------------------------------------ the state as history

  /** The k-th access takes the card down: a RESET, or a routine that does. */
  predicate TakesDown(h: seq<Access>, k: nat)
    requires k < |h|
  {
    h[k].line.Reset? || (h[k].clears && RunsRoutine(EffectAt(h, k)))
  }

  /** The line was used at j, and the card has not been taken down from then until i. */
  ghost predicate UsedAt(h: seq<Access>, i: nat, line: Line, j: nat)
    requires i <= |h|
  {
    j < i && h[j].line == line && forall k :: j <= k < i ==> !TakesDown(h, k)
  }

  ghost predicate Pending(h: seq<Access>, i: nat, line: Line)
    requires i <= |h|
  {
    exists j: nat :: UsedAt(h, i, line, j)
  }

  lemma PendingNext(h: seq<Access>, i: nat, line: Line)
    requires i < |h|
    ensures Pending(h, i + 1, line) <==> !TakesDown(h, i) && (h[i].line == line || Pending(h, i, line))
  {
    hide TakesDown;
    if Pending(h, i + 1, line) {
      var j: nat :| UsedAt(h, i + 1, line, j);
      assert !TakesDown(h, i);
      if j < i {
        assert UsedAt(h, i, line, j);
      }
    }
    if !TakesDown(h, i) {
      if h[i].line == line {
        assert UsedAt(h, i + 1, line, i);
      } else if Pending(h, i, line) {
        var j: nat :| UsedAt(h, i, line, j);
        assert UsedAt(h, i + 1, line, j);
      }
    }
  }

  /**
   The state is the history: its two bits say which lines have been used since the card was
   last taken down. It never leaves 0 to 3.
   */
  lemma {:induction false} StateIsHistory(h: seq<Access>, i: nat)
    requires i <= |h|
    ensures StateAt(h, i) == (if Pending(h, i, Int0) then INT0 else 0) + (if Pending(h, i, Int1) then INT1 else 0)
  {
    hide Pending;
    if i == 0 {
      NothingYet(h);
    } else {
      StateIsHistory(h, i - 1);
      PendingNext(h, i - 1, Int0);
      PendingNext(h, i - 1, Int1);
    }
  }

  lemma NothingYet(h: seq<Access>)
    ensures !Pending(h, 0, Int0) && !Pending(h, 0, Int1)
  {
  }

  /**
   In every sequence of accesses the error arms are unreachable, and sysgen runs exactly when
   the second of INT0 and INT1 first arrives after the card was taken down.
   */
  lemma SysgenExactly(h: seq<Access>, i: nat)
    requires i < |h|
    ensures !EffectAt(h, i).Error?
    ensures EffectAt(h, i).Sysgen? <==>
              || (h[i].line.Int0? && Pending(h, i, Int1) && !Pending(h, i, Int0))
              || (h[i].line.Int1? && Pending(h, i, Int0) && !Pending(h, i, Int1))
    ensures RunsRoutine(EffectAt(h, i)) && !EffectAt(h, i).Sysgen? <==>
              !h[i].line.Reset? && Pending(h, i, Int0) && Pending(h, i, Int1)
  {
    hide Pending;
    StateIsHistory(h, i);
  }

  /** Sysgen ran at j and the card has not been taken down since. */
  ghost predicate UpSince(h: seq<Access>, i: nat, j: nat)
    requires i <= |h|
  {
    j < i && EffectAt(h, j).Sysgen? && forall k :: j <= k < i ==> !TakesDown(h, k)
  }

  lemma {:induction false} UpWhenSysgen(h: seq<Access>, i: nat)
    requires i <= |h| && StateAt(h, i) == SYSGEN
    ensures exists j: nat :: UpSince(h, i, j)
  {
    StateIsHistory(h, i - 1);
    if EffectAt(h, i - 1).Sysgen? {
      assert UpSince(h, i, i - 1);
    } else {
      UpWhenSysgen(h, i - 1);
      var j: nat :| UpSince(h, i - 1, j);
      assert UpSince(h, i, j);
    }
  }

  /** Job handlers run only after a sysgen that still holds. */
  lemma JobsAfterSysgen(h: seq<Access>, i: nat)
    requires i < |h| && (EffectAt(h, i).Express? || EffectAt(h, i).Full?)
    ensures exists j: nat :: UpSince(h, i, j)
  {
    StateIsHistory(h, i);
    UpWhenSysgen(h, i);
  }

  // ------------------------------------------------------------ in place

  /** Noting a line is setting its bit of the state byte. */
  function Note(s: nat, line: Line): nat {
    match line
    case Int0 => if s % 2 == 0 then s + INT0 else s
    case Int1 => if s / 2 % 2 == 0 then s + INT1 else s
    case Reset => NONE
  }

  /** What a routine leaves of the state. */
  function AfterRoutine(s: nat, clears: bool): nat { if clears then NONE else s }

  /**
   Why the line is noted before the routine runs: an access that runs one ends in the right
   state in that order always, and in the other order only if the routine does not take the
   card down.
   */
  lemma NoteBeforeRoutine(h: seq<Access>, i: nat)
    requires i < |h| && RunsRoutine(EffectAt(h, i))
    ensures AfterRoutine(Note(StateAt(h, i), h[i].line), h[i].clears) == StateAt(h, i + 1)
    ensures Note(AfterRoutine(StateAt(h, i), h[i].clears), h[i].line) == StateAt(h, i + 1) <==> !h[i].clears
  {
    StateIsHistory(h, i);
  }

  class Slot {
    var sysgenS: nat
    var ivec: int
    const id: int

    constructor (id: int)
      ensures sysgenS == NONE && this.id == id
    {
      this.id := id;
      sysgenS, ivec := NONE, 0;
    }

    /** The card routine an access runs: it may take the card down. */
    method Routine(clears: bool)
      modifies this`sysgenS
      ensures sysgenS == AfterRoutine(old(sysgenS), clears)
    {
      if clears {
        sysgenS := NONE;
      }
    }

    /** A read of one of the slot's registers. high is set for the first ID register. */
    method IoRead(a: Access, high: bool) returns (data: int, effect: Effect)
      modifies this`sysgenS
      ensures sysgenS == Next(old(sysgenS), a) && effect == EffectIn(old(sysgenS), a.line)
      ensures RunsRoutine(effect) && a.clears ==> sysgenS == NONE
      ensures effect.Identify? ==> data == if high then id / 256 % 256 else id % 256
      ensures effect.Express? || (effect.Sysgen? && a.line.Int0?) ==> data == ivec
      ensures effect.Error? || !a.line.Int0? ==> data == 0
    {
      data := 0;
      match a.line
      case Int0 =>
        if sysgenS == NONE || sysgenS == INT0 {
          sysgenS := Note(sysgenS, Int0);
          effect := Identify;
          data := if high then id / 256 % 256 else id % 256;
        } else if sysgenS == INT1 {
          sysgenS := Note(sysgenS, Int0);
          effect := Sysgen;
          Routine(a.clears);
          data := ivec;
        } else if sysgenS == SYSGEN {
          sysgenS := Note(sysgenS, Int0);
          effect := Express;
          Routine(a.clears);
          data := ivec;
        } else {
          effect := Error;
        }
      case Int1 =>
        if sysgenS == NONE || sysgenS == INT1 {
          sysgenS := Note(sysgenS, Int1);
          effect := Ignore;
        } else if sysgenS == INT0 {
          sysgenS := Note(sysgenS, Int1);
          effect := Sysgen;
          Routine(a.clears);
        } else if sysgenS == SYSGEN {
          sysgenS := Note(sysgenS, Int1);
          effect := Full;
          Routine(a.clears);
        } else {
          effect := Error;
        }
      case Reset =>
        effect := ResetCard;
        Routine(a.clears);
        sysgenS := NONE;
    }

    /** A write of one of the slot's registers; the value written does not matter. */
    method IoWrite(a: Access) returns (effect: Effect)
      modifies this`sysgenS
      ensures sysgenS == Next(old(sysgenS), a) && effect == EffectIn(old(sysgenS), a.line)
      ensures RunsRoutine(effect) && a.clears ==> sysgenS == NONE
    {
      match a.line
      case Int0 =>
        if sysgenS == NONE || sysgenS == INT0 {
          effect := Identify;
          sysgenS := Note(sysgenS, Int0);
        } else if sysgenS == INT1 {
          effect := Sysgen;
          sysgenS := Note(sysgenS, Int0);
          Routine(a.clears);
        } else if sysgenS == SYSGEN {
          effect := Express;
          sysgenS := Note(sysgenS, Int0);
          Routine(a.clears);
        } else {
          effect := Error;
        }
      case Int1 =>
        if sysgenS == NONE || sysgenS == INT1 {
          effect := Ignore;
          sysgenS := Note(sysgenS, Int1);
        } else if sysgenS == INT0 {
          effect := Sysgen;
          sysgenS := Note(sysgenS, Int1);
          Routine(a.clears);
        } else if sysgenS == SYSGEN {
          effect := Full;
          sysgenS := Note(sysgenS, Int1);
          Routine(a.clears);
        } else {
          effect := Error;
        }
      case Reset =>
        effect := ResetCard;
        Routine(a.clears);
        sysgenS := NONE;
    }
  }
}
