/** A shift register beside an accumulator, as in section 2.2 of RFC 3394, and the same
    computation in place, over one array that is never shifted. */
module ShiftRegisters {

  /** The accumulator A and the shift register R[1], ..., R[n]. */
  datatype Registers<T> = Registers(a: T, r: seq<T>)

  /** What step t makes of A and the word that leaves the shift register, and its inverse. */
  datatype Mixer<!T(!new)> = Mixer(mix: (T, T, nat) -> (T, T), unmix: (T, T, nat) -> (T, T)) {
    ghost predicate Inverse() {
      && (forall a, w, t: nat :: var b := mix(a, w, t); unmix(b.0, b.1, t) == (a, w))
      && (forall a, w, t: nat :: var b := unmix(a, w, t); mix(b.0, b.1, t) == (a, w))
    }
  }

  // ---------- by shifting ----------

  /** Step t. */
  function Shift<T(!new)>(m: Mixer<T>, s: Registers<T>, t: nat): (s': Registers<T>)
    requires |s.r| >= 1
    ensures |s'.r| == |s.r|
  {
    var b := m.mix(s.a, s.r[0], t);
    Registers(b.0, s.r[1..] + [b.1])
  }

  /** Steps 1 to t. */
  function ShiftRun<T(!new)>(m: Mixer<T>, s: Registers<T>, t: nat): (s': Registers<T>)
    requires |s.r| >= 1
    ensures |s'.r| == |s.r|
  {
    if t == 0 then s else Shift(m, ShiftRun(m, s, t - 1), t)
  }

  /** Step t undone. */
  function Unshift<T(!new)>(m: Mixer<T>, s: Registers<T>, t: nat): (s': Registers<T>)
    requires |s.r| >= 1
    ensures |s'.r| == |s.r|
  {
    var n := |s.r|;
    var b := m.unmix(s.a, s.r[n - 1], t);
    Registers(b.0, [b.1] + s.r[..n - 1])
  }

  /** Steps t down to 1 undone. */
  function UnshiftRun<T(!new)>(m: Mixer<T>, s: Registers<T>, t: nat): (s': Registers<T>)
    requires |s.r| >= 1
    ensures |s'.r| == |s.r|
    decreases t
  {
    if t == 0 then s else UnshiftRun(m, Unshift(m, s, t), t - 1)
  }

  lemma UnshiftShift<T(!new)>(m: Mixer<T>, s: Registers<T>, t: nat)
    requires m.Inverse() && |s.r| >= 1
    ensures Unshift(m, Shift(m, s, t), t) == s
  {
    var b := m.mix(s.a, s.r[0], t);
    assert [s.r[0]] + s.r[1..] == s.r;
    assert (s.r[1..] + [b.1])[..|s.r| - 1] == s.r[1..];
  }

  lemma ShiftUnshift<T(!new)>(m: Mixer<T>, s: Registers<T>, t: nat)
    requires m.Inverse() && |s.r| >= 1
    ensures Shift(m, Unshift(m, s, t), t) == s
  {
    var n := |s.r|;
    var b := m.unmix(s.a, s.r[n - 1], t);
    assert s.r[..n - 1] + [s.r[n - 1]] == s.r;
    assert ([b.1] + s.r[..n - 1])[1..] == s.r[..n - 1];
  }

  /** Undoing all steps gives back the registers, */
  lemma {:induction false} UnshiftShiftRun<T(!new)>(m: Mixer<T>, s: Registers<T>, t: nat)
    requires m.Inverse() && |s.r| >= 1
    ensures UnshiftRun(m, ShiftRun(m, s, t), t) == s
  {
    if t == 0 {
    } else {
      UnshiftShift(m, ShiftRun(m, s, t - 1), t);
      UnshiftShiftRun(m, s, t - 1);
    }
  }

  /** and so does taking them again after undoing them. */
  lemma {:induction false} ShiftUnshiftRun<T(!new)>(m: Mixer<T>, s: Registers<T>, t: nat)
    requires m.Inverse() && |s.r| >= 1
    ensures ShiftRun(m, UnshiftRun(m, s, t), t) == s
    decreases t
  {
    if t == 0 {
    } else {
      ShiftUnshiftRun(m, Unshift(m, s, t), t - 1);
      ShiftUnshift(m, s, t);
    }
  }

  // ---------- in place ----------

  /** The registers that the words of an array stand for when the shift register has been
      turned by k places against it. */
  function Turned<T>(ws: seq<T>, k: nat): (s: Registers<T>)
    requires k + 1 <= |ws|
    ensures |s.r| == |ws| - 1
  {
    Registers(ws[0], ws[1 + k..] + ws[1..1 + k])
  }

  /** An array that was turned by all its places was not turned. */
  lemma FullTurn<T>(ws: seq<T>, n: nat)
    requires |ws| == n + 1
    ensures Turned(ws, n) == Turned(ws, 0) == Registers(ws[0], ws[1..])
  {
    assert ws[1 + 0..] + ws[1..1 + 0] == ws[1..];
    assert ws[1 + n..] + ws[1..1 + n] == ws[1..];
  }

  /** Step t on word i of the array. */
  function Pass<T(!new)>(m: Mixer<T>, ws: seq<T>, i: nat, t: nat): (ws': seq<T>)
    requires 1 <= i < |ws|
    ensures |ws'| == |ws|
  {
    var b := m.mix(ws[0], ws[i], t);
    ws[0 := b.0][i := b.1]
  }

  function PassBack<T(!new)>(m: Mixer<T>, ws: seq<T>, i: nat, t: nat): (ws': seq<T>)
    requires 1 <= i < |ws|
    ensures |ws'| == |ws|
  {
    var b := m.unmix(ws[0], ws[i], t);
    ws[0 := b.0][i := b.1]
  }

  /** A pass at word i is a shift, seen through the turning. */
  lemma PassShifts<T(!new)>(m: Mixer<T>, ws: seq<T>, i: nat, t: nat)
    requires 1 <= i < |ws|
    ensures Turned(Pass(m, ws, i, t), i) == Shift(m, Turned(ws, i - 1), t)
  {
    assert Turned(ws, i - 1) == Registers(ws[0], ws[i..] + ws[1..i]);
    var b := m.mix(ws[0], ws[i], t);
    TurnOn(ws, i, b.0, b.1);
  }

  lemma TurnOn<T>(ws: seq<T>, i: nat, a: T, w: T)
    requires 1 <= i < |ws|
    ensures var ws' := ws[0 := a][i := w];
            ws'[1 + i..] + ws'[1..1 + i] == (ws[i..] + ws[1..i])[1..] + [w]
  {
    var ws' := ws[0 := a][i := w];
    assert ws'[1 + i..] == ws[1 + i..];
    assert ws'[1..1 + i] == ws[1..i] + [w];
    assert (ws[i..] + ws[1..i])[1..] == ws[1 + i..] + ws[1..i];
  }

  /** A pass back at word i is a shift back. */
  lemma PassBackUnshifts<T(!new)>(m: Mixer<T>, ws: seq<T>, i: nat, t: nat)
    requires 1 <= i < |ws|
    ensures Turned(PassBack(m, ws, i, t), i - 1) == Unshift(m, Turned(ws, i), t)
  {
    var s := Turned(ws, i);
    assert s.r[|s.r| - 1] == ws[i];
    var b := m.unmix(ws[0], ws[i], t);
    TurnBack(ws, i, b.0, b.1);
  }

  lemma TurnBack<T>(ws: seq<T>, i: nat, a: T, w: T)
    requires 1 <= i < |ws|
    ensures var ws', r := ws[0 := a][i := w], ws[1 + i..] + ws[1..1 + i];
            ws'[i..] + ws'[1..i] == [w] + r[..|r| - 1]
  {
    var ws', r := ws[0 := a][i := w], ws[1 + i..] + ws[1..1 + i];
    assert ws'[i..] == [w] + ws[1 + i..];
    assert ws'[1..i] == ws[1..i];
    assert r[..|r| - 1] == ws[1 + i..] + ws[1..i];
  }

  /** The number of steps in j rounds of n: n * j. */
  function Steps(n: nat, j: nat): nat {
    if j == 0 then 0 else Steps(n, j - 1) + n
  }

  lemma {:induction false} StepsAre(n: nat, j: nat)
    ensures Steps(n, j) == n * j
  {
    if j == 0 {
    } else {
      StepsAre(n, j - 1);
      assert n * j == n * (j - 1) + n;
    }
  }

  lemma SixRounds(n: nat)
    ensures Steps(n, 6) == 6 * n
  {
    StepsAre(n, 6);
  }

  /** The first k passes of a round that begins after step t. */
  function Passes<T(!new)>(m: Mixer<T>, ws: seq<T>, k: nat, t: nat): (ws': seq<T>)
    requires k < |ws|
    ensures |ws'| == |ws|
  {
    if k == 0 then ws else Pass(m, Passes(m, ws, k - 1, t), k, t + k)
  }

  lemma NextPass<T(!new)>(m: Mixer<T>, start: seq<T>, ws: seq<T>, ws': seq<T>, i: nat, t: nat)
    requires 1 <= i < |start| && ws == Passes(m, start, i - 1, t) && ws' == Pass(m, ws, i, t + i)
    ensures ws' == Passes(m, start, i, t)
  {
  }

  /** The first j rounds over words 1 to n. */
  function Rounds<T(!new)>(m: Mixer<T>, ws: seq<T>, n: nat, j: nat): (ws': seq<T>)
    requires |ws| == n + 1
    ensures |ws'| == |ws|
  {
    if j == 0 then ws else Passes(m, Rounds(m, ws, n, j - 1), n, Steps(n, j - 1))
  }

  lemma {:induction false} PassesShift<T(!new)>(m: Mixer<T>, start: Registers<T>, ws: seq<T>, k: nat, t: nat)
    requires |start.r| >= 1 && k < |ws|
    requires Turned(ws, 0) == ShiftRun(m, start, t)
    ensures Turned(Passes(m, ws, k, t), k) == ShiftRun(m, start, t + k)
  {
    if k == 0 {
    } else {
      var before := Passes(m, ws, k - 1, t);
      PassesShift(m, start, ws, k - 1, t);
      PassOnRun(m, start, before, Passes(m, ws, k, t), k, t + k);
    }
  }

  lemma PassOnRun<T(!new)>(m: Mixer<T>, start: Registers<T>, ws: seq<T>, ws': seq<T>, k: nat, t: nat)
    requires |start.r| >= 1 && 1 <= k < |ws| && t >= 1
    requires Turned(ws, k - 1) == ShiftRun(m, start, t - 1) && ws' == Pass(m, ws, k, t)
    ensures Turned(ws', k) == ShiftRun(m, start, t)
  {
    PassShifts(m, ws, k, t);
  }

  /** After step t = n * j + i the array is the shift register turned by i places; after whole
      rounds nothing is turned. */
  lemma {:induction false} RoundsShift<T(!new)>(m: Mixer<T>, ws: seq<T>, n: nat, j: nat)
    requires |ws| == n + 1 && n >= 1
    ensures Turned(Rounds(m, ws, n, j), 0) == ShiftRun(m, Turned(ws, 0), Steps(n, j))
  {
    if j == 0 {
    } else {
      RoundsShift(m, ws, n, j - 1);
      var before, t := Rounds(m, ws, n, j - 1), Steps(n, j - 1);
      PassesShift(m, Turned(ws, 0), before, n, t);
      FullTurn(Passes(m, before, n, t), n);
    }
  }

  /** A round taken back from its end at word n down to after word k. */
  function PassesBack<T(!new)>(m: Mixer<T>, ws: seq<T>, n: nat, k: nat, t: nat): (ws': seq<T>)
    requires |ws| == n + 1 && k <= n
    ensures |ws'| == |ws|
    decreases n - k
  {
    if k == n then ws else PassBack(m, PassesBack(m, ws, n, k + 1, t), k + 1, t + k + 1)
  }

  lemma NextPassBack<T(!new)>(m: Mixer<T>, start: seq<T>, ws: seq<T>, ws': seq<T>, n: nat, i: nat, t: nat)
    requires |start| == n + 1 && 1 <= i <= n && ws == PassesBack(m, start, n, i, t) && ws' == PassBack(m, ws, i, t + i)
    ensures ws' == PassesBack(m, start, n, i - 1, t)
  {
  }

  /** The rounds taken back from the last one, number `last`, down to after round j. */
  function RoundsBack<T(!new)>(m: Mixer<T>, ws: seq<T>, n: nat, last: nat, j: nat): (ws': seq<T>)
    requires |ws| == n + 1 && j <= last
    ensures |ws'| == |ws|
    decreases last - j
  {
    if j == last then ws else PassesBack(m, RoundsBack(m, ws, n, last, j + 1), n, 0, Steps(n, j))
  }

  lemma {:induction false} PassesBackUnshift<T(!new)>(m: Mixer<T>, start: Registers<T>, ws: seq<T>, n: nat, k: nat, t: nat)
    requires m.Inverse() && |start.r| >= 1
    requires |ws| == n + 1 && k <= n && Turned(ws, n) == ShiftRun(m, start, t + n)
    ensures Turned(PassesBack(m, ws, n, k, t), k) == ShiftRun(m, start, t + k)
    decreases n - k
  {
    if k == n {
    } else {
      var before := PassesBack(m, ws, n, k + 1, t);
      PassesBackUnshift(m, start, ws, n, k + 1, t);
      PassBackOnRun(m, start, before, PassesBack(m, ws, n, k, t), k, t + k);
    }
  }

  lemma PassBackOnRun<T(!new)>(m: Mixer<T>, start: Registers<T>, ws: seq<T>, ws': seq<T>, k: nat, t: nat)
    requires m.Inverse() && |start.r| >= 1
    requires k + 1 < |ws| && Turned(ws, k + 1) == ShiftRun(m, start, t + 1) && ws' == PassBack(m, ws, k + 1, t + 1)
    ensures Turned(ws', k) == ShiftRun(m, start, t)
  {
    PassBackUnshifts(m, ws, k + 1, t + 1);
    UnshiftShift(m, ShiftRun(m, start, t), t + 1);
  }

  /** Whole rounds taken back from where they led give the registers they started from. */
  lemma {:induction false} RoundsBackUnshift<T(!new)>(m: Mixer<T>, start: Registers<T>, ws: seq<T>, n: nat, last: nat, j: nat)
    requires m.Inverse() && |start.r| >= 1
    requires |ws| == n + 1 && n >= 1 && j <= last && Turned(ws, 0) == ShiftRun(m, start, Steps(n, last))
    ensures Turned(RoundsBack(m, ws, n, last, j), 0) == ShiftRun(m, start, Steps(n, j))
    decreases last - j
  {
    if j == last {
    } else {
      RoundsBackUnshift(m, start, ws, n, last, j + 1);
      var before := RoundsBack(m, ws, n, last, j + 1);
      FullTurn(before, n);
      PassesBackUnshift(m, start, before, n, 0, Steps(n, j));
    }
  }
}
