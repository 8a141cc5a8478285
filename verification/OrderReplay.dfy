/** The cursor commands of the order-book viewer as steps over an order log
    (guis/orderBookSim/OrderBookSim.h). `None` stands for a read past the end of the log. */
module OrderReplay {
  import opened Options
  import opened OrderBook

  /** Cursor, time of the last order read, and book. */
  datatype Snapshot = Snapshot(nent: nat, msecs: int, book: Book)

  const START := Snapshot(0, 0, EMPTY_BOOK)

  datatype Command = Reset | Next | Prev | Goto(target: int) | Jumpto(target: int)

  function Read(log: seq<Event>, s: Snapshot): Snapshot
    requires s.nent < |log|
  {
    Snapshot(s.nent + 1, log[s.nent].msecs, Step(s.book, log[s.nent]))
  }

  /** Reading orders until a cursor position is reached. */
  function ReadUpTo(log: seq<Event>, s: Snapshot, nent2go: int): Snapshot
    requires s.nent <= |log| && nent2go <= |log|
    decreases nent2go - s.nent
  {
    if s.nent >= nent2go then s else ReadUpTo(log, Read(log, s), nent2go)
  }

  /** Reading orders until a time of day is reached. */
  function Advance(log: seq<Event>, s: Snapshot, msecs2go: int): Option<Snapshot>
    requires s.nent <= |log|
    decreases |log| - s.nent
  {
    if s.msecs >= msecs2go then Some(s)
    else if s.nent == |log| then None
    else Advance(log, Read(log, s), msecs2go)
  }

  function Exec(log: seq<Event>, s: Snapshot, c: Command): Option<Snapshot>
    requires s.nent <= |log|
  {
    match c
    case Reset => Some(START)
    case Next => if s.nent < |log| then Some(Read(log, s)) else None
    case Prev => Some(ReadUpTo(log, START, s.nent - 1))
    case Goto(t) => Advance(log, s, t)
    case Jumpto(t) => Advance(log, s, t)
  }

  /** The state the first n orders lead to. */
  function At(log: seq<Event>, n: nat): Snapshot
    requires n <= |log|
  {
    Snapshot(n, if n == 0 then 0 else log[n - 1].msecs, Replay(log, n))
  }

  ghost predicate OnReplay(log: seq<Event>, s: Snapshot) {
    s.nent <= |log| && s == At(log, s.nent)
  }

  /** A session: commands issued from the freshly loaded state. */
  function Run(log: seq<Event>, cmds: seq<Command>): (r: Option<Snapshot>)
    ensures r.Some? ==> r.value.nent <= |log|
  {
    if cmds == [] then Some(START)
    else
      var before := Run(log, cmds[..|cmds| - 1]);
      if before.None? then None
      else
        var after := Exec(log, before.value, cmds[|cmds| - 1]);
        ExecStaysInLog(log, before.value, cmds[|cmds| - 1]);
        after
  }

  lemma ExecStaysInLog(log: seq<Event>, s: Snapshot, c: Command)
    requires s.nent <= |log|
    ensures var r := Exec(log, s, c); r.Some? ==> r.value.nent <= |log|
  {
    match c
    case Reset =>
    case Next =>
    case Prev => ReadUpToLands(log, START, s.nent - 1);
    case Goto(t) => AdvanceMoves(log, s, t);
    case Jumpto(t) => AdvanceMoves(log, s, t);
  }

  lemma {:induction false} ReadUpToLands(log: seq<Event>, s: Snapshot, n: int)
    requires s.nent <= |log| && n <= |log|
    ensures ReadUpTo(log, s, n).nent == if s.nent >= n then s.nent else n
    ensures OnReplay(log, s) ==> OnReplay(log, ReadUpTo(log, s, n))
    decreases n - s.nent
  {
    if s.nent < n {
      ReadUpToLands(log, Read(log, s), n);
    }
  }

  lemma {:induction false} AdvanceMoves(log: seq<Event>, s: Snapshot, t: int)
    requires s.nent <= |log|
    ensures var r := Advance(log, s, t); r.Some? ==> s.nent <= r.value.nent <= |log|
    ensures var r := Advance(log, s, t); r.Some? && OnReplay(log, s) ==> OnReplay(log, r.value)
    decreases |log| - s.nent
  {
    if s.msecs < t && s.nent < |log| {
      AdvanceMoves(log, Read(log, s), t);
    }
  }

  // ------------------------------------------------------ every session at once

  /** After any sequence of commands the time and both books are the replay of the orders before the cursor. */
  lemma {:induction false} RunsStayOnReplay(log: seq<Event>, cmds: seq<Command>)
    ensures var r := Run(log, cmds); r.Some? ==> OnReplay(log, r.value)
  {
    if cmds != [] {
      var front, c := cmds[..|cmds| - 1], cmds[|cmds| - 1];
      RunsStayOnReplay(log, front);
      var before := Run(log, front);
      if before.Some? {
        match c
        case Reset =>
        case Next =>
        case Prev => ReadUpToLands(log, START, before.value.nent - 1);
        case Goto(t) => AdvanceMoves(log, before.value, t);
        case Jumpto(t) => AdvanceMoves(log, before.value, t);
      }
    }
  }

  /** Two sessions over one log that stop at the same cursor show the same time and the same book. */
  lemma CursorDeterminesState(log: seq<Event>, a: seq<Command>, b: seq<Command>)
    requires Run(log, a).Some? && Run(log, b).Some?
    requires Run(log, a).value.nent == Run(log, b).value.nent
    ensures Run(log, a) == Run(log, b)
  {
    RunsStayOnReplay(log, a);
    RunsStayOnReplay(log, b);
  }

  /** In every reachable state one step forth and one step back, in either order, changes nothing. */
  lemma PrevUndoesNext(log: seq<Event>, cmds: seq<Command>)
    requires Run(log, cmds).Some?
    ensures var s := Run(log, cmds).value;
            && (s.nent < |log| ==> Run(log, cmds + [Next, Prev]) == Some(s))
            && (s.nent > 0 ==> Run(log, cmds + [Prev, Next]) == Some(s))
  {
    var s := Run(log, cmds).value;
    RunsStayOnReplay(log, cmds);
    if s.nent < |log| {
      BackAfterForth(log, s);
      RunTwo(log, cmds, Next, Prev);
    }
    if s.nent > 0 {
      ForthAfterBack(log, s);
      RunTwo(log, cmds, Prev, Next);
    }
  }

  lemma BackAfterForth(log: seq<Event>, s: Snapshot)
    requires OnReplay(log, s) && s.nent < |log|
    ensures var next := Exec(log, s, Next);
            next.Some? && next.value.nent <= |log| && Exec(log, next.value, Prev) == Some(s)
  {
    ReadUpToLands(log, START, s.nent);
  }

  lemma ForthAfterBack(log: seq<Event>, s: Snapshot)
    requires OnReplay(log, s) && s.nent > 0
    ensures var prev := Exec(log, s, Prev);
            prev.Some? && prev.value.nent <= |log| && Exec(log, prev.value, Next) == Some(s)
  {
    ReadUpToLands(log, START, s.nent - 1);
  }

  lemma RunOne(log: seq<Event>, cmds: seq<Command>, c: Command)
    requires Run(log, cmds).Some?
    ensures Run(log, cmds + [c]) == Exec(log, Run(log, cmds).value, c)
  {
    assert (cmds + [c])[..|cmds|] == cmds;
  }

  lemma RunTwo(log: seq<Event>, cmds: seq<Command>, c: Command, d: Command)
    requires Run(log, cmds).Some? && Exec(log, Run(log, cmds).value, c).Some?
    ensures Exec(log, Run(log, cmds).value, c).value.nent <= |log|
    ensures Run(log, cmds + [c, d]) == Exec(log, Exec(log, Run(log, cmds).value, c).value, d)
  {
    ExecStaysInLog(log, Run(log, cmds).value, c);
    RunOne(log, cmds, c);
    RunOne(log, cmds + [c], d);
    assert cmds + [c] + [d] == cmds + [c, d];
  }

  // -------------------------------------------------------------- jumping in time

  /** `n` is just past the first order from the cursor on that is at or after the target. */
  ghost predicate JustPastFirst(log: seq<Event>, from: nat, t: int, n: nat) {
    && from < n <= |log|
    && log[n - 1].msecs >= t
    && (forall k :: from <= k < n - 1 ==> log[k].msecs < t)
  }

  /** A jump stays put when the target time is reached, otherwise it stops just past the first order at
      or after the target, and it runs off the log exactly when no such order remains. */
  lemma {:induction false} JumpStopsAtFirst(log: seq<Event>, s: Snapshot, t: int)
    requires OnReplay(log, s)
    ensures s.msecs >= t ==> Exec(log, s, Jumpto(t)) == Some(s)
    ensures Exec(log, s, Jumpto(t)).None?
            <==> s.msecs < t && forall k :: s.nent <= k < |log| ==> log[k].msecs < t
    ensures s.msecs < t && Exec(log, s, Jumpto(t)).Some? ==>
              var r := Exec(log, s, Jumpto(t)).value;
              JustPastFirst(log, s.nent, t, r.nent) && r == At(log, r.nent)
    decreases |log| - s.nent
  {
    if s.msecs < t && s.nent < |log| {
      JumpStopsAtFirst(log, Read(log, s), t);
      AdvanceMoves(log, s, t);
    }
  }

  /** Going to a time is jumping to it. */
  lemma GotoIsJump(log: seq<Event>, s: Snapshot, t: int)
    requires OnReplay(log, s)
    ensures Exec(log, s, Goto(t)) == Exec(log, s, Jumpto(t))
    ensures s.msecs >= t ==> Exec(log, s, Goto(t)) == Some(s)
    ensures s.msecs < t && Exec(log, s, Goto(t)).Some? ==>
              JustPastFirst(log, s.nent, t, Exec(log, s, Goto(t)).value.nent)
  {
    JumpStopsAtFirst(log, s, t);
  }

  /** Whatever was done before, a reset leads back to the loaded state: nothing read, time zero, no prices. */
  lemma ResetReloads(log: seq<Event>, cmds: seq<Command>)
    requires Run(log, cmds).Some?
    ensures Run(log, cmds + [Reset]) == Some(Snapshot(0, 0, Book(map[], map[])))
  {
    RunOne(log, cmds, Reset);
  }

  /** A step reads the order under the cursor: its time is shown and the cursor is past it. */
  lemma NextReadsOne(log: seq<Event>, s: Snapshot)
    requires OnReplay(log, s) && s.nent < |log|
    ensures var r := Exec(log, s, Next);
            && r.Some? && r.value.nent == s.nent + 1 && r.value.msecs == log[s.nent].msecs
            && r.value.book == Replay(log, s.nent + 1)
  {
  }

  function Max(a: int, b: int): int {
    if a >= b then a else b
  }

  /** Jumping to t and then to u is jumping to the later of the two, from any state and in any order. */
  lemma {:induction false} JumpsCompose(log: seq<Event>, s: Snapshot, t: int, u: int)
    requires s.nent <= |log|
    ensures var first := Exec(log, s, Jumpto(t));
            && (first.None? ==> Exec(log, s, Jumpto(if t >= u then t else u)).None?)
            && (first.Some? ==>
                  && first.value.nent <= |log|
                  && Exec(log, first.value, Jumpto(u)) == Exec(log, s, Jumpto(if t >= u then t else u)))
    decreases |log| - s.nent
  {
    if s.msecs < t && s.nent < |log| {
      JumpsCompose(log, Read(log, s), t, u);
    }
  }

  /** One step back from a jump that moved is before the target again, and repeating the jump returns. */
  lemma PrevThenJumpAgain(log: seq<Event>, s: Snapshot, t: int)
    requires OnReplay(log, s) && s.msecs < t && Exec(log, s, Jumpto(t)).Some?
    ensures var r := Exec(log, s, Jumpto(t)).value;
            && r.nent <= |log|
            && var back := Exec(log, r, Prev).value;
               back.nent <= |log| && back.msecs < t && Exec(log, back, Jumpto(t)) == Some(r)
  {
    JumpStopsAtFirst(log, s, t);
    var r := Exec(log, s, Jumpto(t)).value;
    PrevGoesTo(log, r.nent);
    JumpByOne(log, r.nent, t);
  }

  lemma PrevGoesTo(log: seq<Event>, n: nat)
    requires 0 < n <= |log|
    ensures Exec(log, At(log, n), Prev) == Some(At(log, n - 1))
  {
    ReadUpToLands(log, START, n - 1);
  }

  lemma JumpByOne(log: seq<Event>, n: nat, t: int)
    requires 0 < n <= |log| && At(log, n - 1).msecs < t <= log[n - 1].msecs
    ensures Exec(log, At(log, n - 1), Jumpto(t)) == Some(At(log, n))
  {
    assert Read(log, At(log, n - 1)) == At(log, n);
    assert Advance(log, At(log, n), t) == Some(At(log, n));
  }

  // ------------------------------------------------------------------- redrawing

  /** What is shown: the state, and whether a redraw since loading has seen a price. */
  datatype Screen = Screen(snap: Snapshot, priced: bool)

  predicate HasPrice(b: Book) {
    b.bid != map[] || b.ask != map[]
  }

  /** A redraw; `None` is the division by an interval of zero when no price rests or has been drawn. */
  function Show(s: Screen): Option<Screen> {
    if s.priced || HasPrice(s.snap.book) then Some(Screen(s.snap, true)) else None
  }

  /** Reading with a redraw after every order until a time of day is reached. */
  function AdvanceShown(log: seq<Event>, s: Screen, msecs2go: int): Option<Screen>
    requires s.snap.nent <= |log|
    decreases |log| - s.snap.nent
  {
    if s.snap.msecs >= msecs2go then Some(s)
    else if s.snap.nent == |log| then None
    else
      var shown := Show(Screen(Read(log, s.snap), s.priced));
      if shown.None? then None else AdvanceShown(log, shown.value, msecs2go)
  }

  /** A command with its redraws. */
  function ExecShown(log: seq<Event>, s: Screen, c: Command): Option<Screen>
    requires s.snap.nent <= |log|
  {
    match c
    case Reset => Some(s.(snap := START))
    case Next => if s.snap.nent < |log| then Show(s.(snap := Read(log, s.snap))) else None
    case Prev => Show(s.(snap := ReadUpTo(log, START, s.snap.nent - 1)))
    case Goto(t) => AdvanceShown(log, s, t)
    case Jumpto(t) =>
      var r := Advance(log, s.snap, t);
      if r.None? then None else Show(s.(snap := r.value))
  }

  /** The book of a command's first redraw, if it redraws at all. */
  function FirstShown(log: seq<Event>, s: Snapshot, c: Command): Option<Book>
    requires s.nent <= |log| && Exec(log, s, c).Some?
  {
    match c
    case Reset => None
    case Next => Some(Read(log, s).book)
    case Prev => Some(ReadUpTo(log, START, s.nent - 1).book)
    case Goto(t) => if s.msecs >= t then None else Some(Read(log, s).book)
    case Jumpto(t) => Some(Advance(log, s, t).value.book)
  }

  /** Once a price has been drawn no redraw fails. */
  lemma {:induction false} PricedAdvance(log: seq<Event>, s: Snapshot, t: int)
    requires s.nent <= |log| && Advance(log, s, t).Some?
    ensures AdvanceShown(log, Screen(s, true), t) == Some(Screen(Advance(log, s, t).value, true))
    decreases |log| - s.nent
  {
    if s.msecs < t {
      PricedAdvance(log, Read(log, s), t);
    }
  }

  /** A command that reads inside the log fails exactly when no price has been drawn yet and its first
      redraw has none to draw; else it leads where it would without redrawing. */
  lemma ExecShownIff(log: seq<Event>, s: Screen, c: Command)
    requires s.snap.nent <= |log| && Exec(log, s.snap, c).Some?
    ensures var (first, shown) := (FirstShown(log, s.snap, c), ExecShown(log, s, c));
            && (shown.Some? <==> s.priced || first.None? || HasPrice(first.value))
            && (shown.Some? ==> shown == Some(Screen(Exec(log, s.snap, c).value, s.priced || first.Some?)))
  {
    match c
    case Reset =>
    case Next =>
    case Prev =>
    case Goto(t) =>
      if s.snap.msecs < t {
        PricedAdvance(log, Read(log, s.snap), t);
      }
    case Jumpto(t) =>
  }

  /** A session with its redraws. */
  function RunShown(log: seq<Event>, cmds: seq<Command>): (r: Option<Screen>)
    requires Run(log, cmds).Some?
    ensures r.Some? ==> r.value.snap == Run(log, cmds).value
  {
    if cmds == [] then Some(Screen(START, false))
    else
      var before := RunShown(log, cmds[..|cmds| - 1]);
      if before.None? then None
      else
        ExecShownIff(log, before.value, cmds[|cmds| - 1]);
        ExecShown(log, before.value, cmds[|cmds| - 1])
  }

  /** The book of a session's first redraw. */
  function FirstOfSession(log: seq<Event>, cmds: seq<Command>): Option<Book>
    requires Run(log, cmds).Some?
  {
    if cmds == [] then None
    else
      var before := FirstOfSession(log, cmds[..|cmds| - 1]);
      if before.Some? then before
      else FirstShown(log, Run(log, cmds[..|cmds| - 1]).value, cmds[|cmds| - 1])
  }

  /** A session that reads inside its log never divides by an interval of zero exactly when its first
      redraw, if there is one, has a price to draw. */
  lemma {:induction false} SessionIsSafeIff(log: seq<Event>, cmds: seq<Command>)
    requires Run(log, cmds).Some?
    ensures var first := FirstOfSession(log, cmds);
            && (RunShown(log, cmds).Some? <==> first.None? || HasPrice(first.value))
            && (RunShown(log, cmds).Some? ==> RunShown(log, cmds).value.priced == first.Some?)
  {
    if cmds != [] {
      var front, c := cmds[..|cmds| - 1], cmds[|cmds| - 1];
      SessionIsSafeIff(log, front);
      if RunShown(log, front).Some? {
        ExecShownIff(log, RunShown(log, front).value, c);
      }
    }
  }

  /** Stepping back right after loading fails, whatever the log. */
  lemma PrevFirstFails(log: seq<Event>)
    ensures Run(log, [Prev]) == Some(START) && RunShown(log, [Prev]).None?
  {
    assert [Prev][..0] == [];
    assert Run(log, []) == Some(START);
    assert RunShown(log, []) == Some(Screen(START, false));
  }
}
