/**
 The typing effect in the page header. The typist cycles through a list of
 role titles: it types one more character per tick until the whole title
 shows, pauses, deletes one character per tick until nothing shows, then moves
 on to the next title, wrapping around after the last one.

 Each call of the source's `type()` is one `Type` step: it yields the text to
 display and the delay in milliseconds before the next call. Timer scheduling
 itself is not modelled, only the requested delay. The step is stated for any
 list of non-empty titles; the page uses `Roles`.
 */
module Typewriter {

  /** The role titles the page shows, in display order. */
  const Roles: seq<string> := ["Web Developer.", "IT Specialist.", "UI Designer.", "Problem Solver."]

  /** Delays requested before the next tick, in milliseconds. */
  const PauseOnFullWord: nat := 1600
  const DeleteDelay: nat := 55
  const TypeDelay: nat := 100

  /** A title list the typist can cycle through: at least one title, and no
      empty title (an empty one would be typed forever). */
  predicate TitlesOk(titles: seq<string>) {
    |titles| > 0 && forall i :: 0 <= i < |titles| ==> |titles[i]| > 0
  }

  /** The page's titles qualify. */
  lemma RolesOk()
    ensures TitlesOk(Roles)
    ensures |Roles| == 4
  {
  }

  /** `ri` is the title being shown, `ci` the number of its characters shown,
      `deleting` whether the typist is currently erasing. */
  datatype Typist = Typist(ri: nat, ci: nat, deleting: bool)

  /** The result of one tick: the next state, the text put on screen and the
      delay before the following tick. */
  datatype Tick = Tick(next: Typist, shown: string, delay: nat)

  /** The state invariant kept by every tick: the indices are in range, a
      typist that is still typing has not finished its title, and a deleting
      typist still has a character to delete. */
  ghost predicate Inv(titles: seq<string>, s: Typist) {
    && s.ri < |titles|
    && s.ci <= |titles[s.ri]|
    && (!s.deleting ==> s.ci < |titles[s.ri]|)
    && (s.deleting ==> s.ci >= 1)
  }

  /** The state at page load: first title, nothing typed. */
  const Start: Typist := Typist(0, 0, false)

  /** Every title start, the page-load state included, satisfies the
      invariant. */
  lemma TitleStartIsValid(titles: seq<string>, ri: nat)
    requires TitlesOk(titles) && ri < |titles|
    ensures Inv(titles, Typist(ri, 0, false))
  {
  }

  /** One call of `type()`. */
  function Type(titles: seq<string>, s: Typist): (r: Tick)
    requires TitlesOk(titles) && Inv(titles, s)
    ensures Inv(titles, r.next)
    // what is on screen is always the prefix of the current title the state describes
    ensures r.shown == titles[r.next.ri][..r.next.ci]
    // typing adds exactly one character of the same title
    ensures !s.deleting ==> r.next.ri == s.ri && r.next.ci == s.ci + 1
    // deleting removes exactly one character
    ensures s.deleting ==> r.next.ci + 1 == s.ci
    // the title changes only when the last character is deleted, and then
    // moves on to the next title cyclically
    ensures r.next.ri != s.ri ==> s.deleting && s.ci == 1
    ensures s.deleting && s.ci == 1 ==> r.next.ri == (s.ri + 1) % |titles| && !r.next.deleting
  {
    var word := titles[s.ri];
    if !s.deleting then
      var ci := s.ci + 1;
      if ci == |word| then
        Tick(Typist(s.ri, ci, true), word[..ci], PauseOnFullWord)
      else
        Tick(Typist(s.ri, ci, false), word[..ci], TypeDelay)
    else
      var ci := s.ci - 1;
      if ci == 0 then
        Tick(Typist((s.ri + 1) % |titles|, ci, false), word[..ci], TypeDelay)
      else
        Tick(Typist(s.ri, ci, true), word[..ci], DeleteDelay)
  }

  /** When a tick switches phase, and how long it waits. */
  lemma TypePhaseAndDelay(titles: seq<string>, s: Typist)
    requires TitlesOk(titles) && Inv(titles, s)
    // the typist starts deleting exactly when the title has been completed
    ensures Type(titles, s).next.deleting && !s.deleting <==> !s.deleting && s.ci + 1 == |titles[s.ri]|
    // and keeps deleting until the last character is gone
    ensures Type(titles, s).next.deleting <==> (s.deleting && s.ci > 1) || (!s.deleting && s.ci + 1 == |titles[s.ri]|)
    // the delay: a long pause on a complete title, short while deleting,
    // the typing delay otherwise
    ensures Type(titles, s).delay == PauseOnFullWord <==> !s.deleting && s.ci + 1 == |titles[s.ri]|
    ensures Type(titles, s).delay == DeleteDelay <==> s.deleting && s.ci > 1
    ensures Type(titles, s).delay == TypeDelay <==> (!s.deleting && s.ci + 1 < |titles[s.ri]|) || (s.deleting && s.ci == 1)
  {
  }

  /** The state after k ticks. */
  function Ticks(titles: seq<string>, s: Typist, k: nat): (r: Typist)
    requires TitlesOk(titles) && Inv(titles, s)
    ensures Inv(titles, r)
    decreases k
  {
    if k == 0 then s else Ticks(titles, Type(titles, s).next, k - 1)
  }

  lemma {:induction false} TicksAdd(titles: seq<string>, s: Typist, a: nat, b: nat)
    requires TitlesOk(titles) && Inv(titles, s)
    ensures Ticks(titles, s, a + b) == Ticks(titles, Ticks(titles, s, a), b)
    decreases a
  {
    if a > 0 {
      TicksAdd(titles, Type(titles, s).next, a - 1, b);
    }
  }

  /** Two stretches of ticks run back to back. */
  lemma TicksChain(titles: seq<string>, s: Typist, a: nat, mid: Typist, b: nat, end: Typist)
    requires TitlesOk(titles) && Inv(titles, s) && Inv(titles, mid)
    requires Ticks(titles, s, a) == mid && Ticks(titles, mid, b) == end
    ensures Ticks(titles, s, a + b) == end
  {
    TicksAdd(titles, s, a, b);
  }

  /** Typing phase: from any point while typing, the title is completed after
      as many ticks as characters remain, and the typist then starts deleting. */
  lemma {:induction false} TypingCompletes(titles: seq<string>, s: Typist)
    requires TitlesOk(titles) && Inv(titles, s) && !s.deleting
    ensures Ticks(titles, s, |titles[s.ri]| - s.ci) == Typist(s.ri, |titles[s.ri]|, true)
    decreases |titles[s.ri]| - s.ci
  {
    var t := Type(titles, s).next;
    if s.ci + 1 < |titles[s.ri]| {
      TypingCompletes(titles, t);
    }
  }

  /** Deleting phase: a deleting typist with c characters on screen reaches an
      empty screen after c ticks, positioned at the start of the next title. */
  lemma {:induction false} DeletingCompletes(titles: seq<string>, s: Typist)
    requires TitlesOk(titles) && Inv(titles, s) && s.deleting
    ensures Ticks(titles, s, s.ci) == Typist((s.ri + 1) % |titles|, 0, false)
    decreases s.ci
  {
    var t := Type(titles, s).next;
    if s.ci > 1 {
      DeletingCompletes(titles, t);
    }
  }

  /** One full round on a title: starting on an empty screen, after typing and
      deleting every character of the title (two ticks per character) the
      typist is at the start of the next title. */
  lemma RoundAdvancesTitle(titles: seq<string>, ri: nat)
    requires TitlesOk(titles) && ri < |titles|
    ensures Ticks(titles, Typist(ri, 0, false), 2 * |titles[ri]|) == Typist((ri + 1) % |titles|, 0, false)
  {
    var s := Typist(ri, 0, false);
    var n := |titles[ri]|;
    var full := Typist(ri, n, true);
    TypingCompletes(titles, s);
    DeletingCompletes(titles, full);
    TicksChain(titles, s, n, full, n, Typist((ri + 1) % |titles|, 0, false));
  }

  /** The title j places after title ri, wrapping around after the last. */
  function TitleAfter(titles: seq<string>, ri: nat, j: nat): (r: nat)
    requires TitlesOk(titles) && ri < |titles|
    ensures r < |titles|
  {
    if j == 0 then ri else (TitleAfter(titles, ri, j - 1) + 1) % |titles|
  }

  /** Number of ticks needed to type and delete the j titles starting at
      title ri. */
  function RoundsLength(titles: seq<string>, ri: nat, j: nat): nat
    requires TitlesOk(titles) && ri < |titles|
  {
    if j == 0 then 0 else RoundsLength(titles, ri, j - 1) + 2 * |titles[TitleAfter(titles, ri, j - 1)]|
  }

  /** j complete rounds starting at title ri end at the start of the title j
      places further on. */
  lemma {:induction false} RoundsAdvanceTitles(titles: seq<string>, ri: nat, j: nat)
    requires TitlesOk(titles) && ri < |titles|
    ensures Ticks(titles, Typist(ri, 0, false), RoundsLength(titles, ri, j))
         == Typist(TitleAfter(titles, ri, j), 0, false)
  {
    if j > 0 {
      var cur := TitleAfter(titles, ri, j - 1);
      RoundsAdvanceTitles(titles, ri, j - 1);
      RoundAdvancesTitle(titles, cur);
      TicksChain(titles, Typist(ri, 0, false), RoundsLength(titles, ri, j - 1), Typist(cur, 0, false),
                 2 * |titles[cur]|, Typist(TitleAfter(titles, ri, j), 0, false));
    }
  }

  /** A state that recurs after p ticks recurs after every multiple of p. */
  lemma {:induction false} PeriodRepeats(titles: seq<string>, s: Typist, p: nat, k: nat)
    requires TitlesOk(titles) && Inv(titles, s)
    requires Ticks(titles, s, p) == s
    ensures Ticks(titles, s, p * k) == s
  {
    if k > 0 {
      PeriodRepeats(titles, s, p, k - 1);
      assert p * k == p * (k - 1) + p;
      TicksChain(titles, s, p * (k - 1), s, p, s);
    }
  }

  /** Following the page's titles from any one of them, the fourth successor
      is the title itself, and the four titles together have 55 characters. */
  lemma RolesCycle(ri: nat, t1: nat, t2: nat, t3: nat)
    requires ri < |Roles|
    requires t1 == (ri + 1) % |Roles| && t2 == (t1 + 1) % |Roles| && t3 == (t2 + 1) % |Roles|
    ensures (t3 + 1) % |Roles| == ri
    ensures |Roles[ri]| + |Roles[t1]| + |Roles[t2]| + |Roles[t3]| == 55
  {
  }

  /** Four rounds from any of the page's titles come back to that title and
      take 110 ticks. */
  lemma RolesRounds(ri: nat)
    requires ri < |Roles|
    ensures TitlesOk(Roles) && TitleAfter(Roles, ri, 4) == ri && RoundsLength(Roles, ri, 4) == 110
  {
    RolesOk();
    var t1 := TitleAfter(Roles, ri, 1);
    var t2 := TitleAfter(Roles, ri, 2);
    var t3 := TitleAfter(Roles, ri, 3);
    RolesCycle(ri, t1, t2, t3);
  }

  /** The page's effect is periodic: from the start of any title, after 110
      ticks (every title typed and deleted once) the typist is back where it
      was. */
  lemma CycleIsPeriodic(ri: nat)
    requires ri < |Roles|
    ensures TitlesOk(Roles) && Ticks(Roles, Typist(ri, 0, false), 110) == Typist(ri, 0, false)
  {
    RolesRounds(ri);
    RoundsAdvanceTitles(Roles, ri, 4);
  }

  /** In particular the page-load state recurs every 110 ticks. */
  lemma CycleReturnsToStart(k: nat)
    ensures TitlesOk(Roles) && Ticks(Roles, Start, 110 * k) == Start
  {
    RolesOk();
    CycleIsPeriodic(0);
    PeriodRepeats(Roles, Start, 110, k);
  }
}
