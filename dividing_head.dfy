/**
  The indexing search of the dividing head calculator, `calculate_indexing`:
  from the division count N and the worm gear's tooth count it takes the
  exact turn requirement worm_teeth/N, splits it into whole turns and a
  fraction of a turn, and for each indexing mode and each index plate picks
  the hole count nearest to the mode's target. Candidates that use no hole or
  a whole circle are dropped, the rest are kept when their percentage error
  is within the tolerance, and the kept records are sorted by error.

  The specification functions below follow the code step by step; the method
  `CalculateIndexing` runs the same nested loops and is proved equal to them.
 */
module DividingHead {
  import opened Fractions
  import opened Solutions

  datatype Option<T> = None | Some(value: T)

  /** A mode together with the fraction of a turn it has to reach. */
  datatype Target = Target(mode: Mode, value: Fraction)

  /**
    `base_turns = Fraction(worm_teeth, N)`, split into
    `full_turns = numerator // denominator` and `frac_part = base_turns - full_turns`.
   */
  function TurnSplit(n: int, wormTeeth: int): (split: (int, Fraction))
    requires n != 0
    ensures split.0 as real <= wormTeeth as real / n as real < split.0 as real + 1.0
    ensures 0.0 <= Value(split.1) < 1.0
    ensures split.0 as real + Value(split.1) == wormTeeth as real / n as real
  {
    var baseTurns := Make(wormTeeth, n);
    var fullTurns := Floor(baseTurns);
    (fullTurns, Sub(baseTurns, FromInt(fullTurns)))
  }

  /** The target of each mode: the remainder, moved by the differential ratio in the differential modes. */
  function ModeTarget(mode: Mode, fracPart: Fraction, diffA: int, diffB: int): (t: Fraction)
    requires diffB != 0
    ensures mode == Simple ==> t == fracPart
    ensures mode == DifferentialPlus ==> Value(t) == Value(fracPart) + diffA as real / diffB as real
    ensures mode == DifferentialMinus ==> Value(t) == Value(fracPart) - diffA as real / diffB as real
  {
    match mode
    case Simple => fracPart
    case DifferentialPlus => Add(fracPart, Make(diffA, diffB))
    case DifferentialMinus => Sub(fracPart, Make(diffA, diffB))
  }

  /** The modes the loop visits: the third one only when `diffA != 0`. */
  predicate Active(mode: Mode, diffA: int) {
    mode != DifferentialMinus || diffA != 0
  }

  /**
    The list the outer loop walks: Simple, "Differential +" (always built),
    and "Differential -" or the placeholder `None` that the loop skips.
   */
  function ModeList(fracPart: Fraction, diffA: int, diffB: int): (modes: seq<Option<Target>>)
    requires diffB != 0
  {
    [ Some(Target(Simple, ModeTarget(Simple, fracPart, diffA, diffB))),
      Some(Target(DifferentialPlus, ModeTarget(DifferentialPlus, fracPart, diffA, diffB))),
      if diffA != 0 then Some(Target(DifferentialMinus, ModeTarget(DifferentialMinus, fracPart, diffA, diffB)))
      else None ]
  }

  /** `b = round(frac * plate)`: the nearest hole count, ties to even. */
  function HoleCount(target: Fraction, plate: int): (b: int)
    ensures RealAbs(b as real - Value(target) * plate as real) <= 0.5
    ensures RealAbs(b as real - Value(target) * plate as real) == 0.5 ==> b % 2 == 0
  {
    var scaled := MulInt(target, plate);
    var b := Round(scaled);
    var v := Value(target) * plate as real;
    assert Value(scaled) == v;
    assert RealAbs(b as real - v) == RealAbs(b as real - Value(scaled));
    b
  }

  /** The percentage by which `b / plate` misses the target. */
  ghost function PercentError(b: int, plate: int, target: Fraction): real
    requires plate != 0
  {
    100.0 * RealAbs(b as real / plate as real - Value(target))
  }

  /**
    The body of the inner loop for one mode and one plate: the record it
    appends, or `None` when the guard `b == 0 or b >= plate` or the
    tolerance drops the candidate.
   */
  function Candidate(t: Target, plate: int, fullTurns: int, maxError: Fraction): (r: Option<Solution>)
    ensures var b := HoleCount(t.value, plate);
      r.Some? <==> b != 0 && b < plate && PercentError(b, plate, t.value) <= Value(maxError)
    ensures r.Some? ==>
      && r.value.mode == t.mode && r.value.plate == plate && r.value.fullTurns == fullTurns
      && r.value.b == HoleCount(t.value, plate) && r.value.b != 0 && r.value.b < plate
      && Value(r.value.fraction) == r.value.b as real / plate as real
      && Value(r.value.error) == PercentError(r.value.b, plate, t.value)
      && Value(r.value.error) <= Value(maxError)
  {
    var b := HoleCount(t.value, plate);
    if b == 0 || b >= plate then None
    else
      var actual := Make(b, plate);
      var error := MulInt(Abs(Sub(actual, t.value)), 100);
      if Le(error, maxError) then Some(Solution(t.mode, plate, b, actual, error, fullTurns))
      else None
  }

  /** The fraction a record carries is `Fraction(b, plate)`, so it is in lowest terms. */
  lemma CandidateInLowestTerms(t: Target, plate: int, fullTurns: int, maxError: Fraction)
    requires Candidate(t, plate, fullTurns, maxError).Some?
    ensures LowestTerms(Candidate(t, plate, fullTurns, maxError).value.fraction)
  {
    MakeInLowestTerms(HoleCount(t.value, plate), plate);
  }

  function Emitted(o: Option<Solution>): seq<Solution> {
    if o.Some? then [o.value] else []
  }

  /**
    A loop over `plates` that appends what `emit` yields for each plate and
    skips (`continue`) where it yields `None`.
   */
  function Keep(plates: seq<int>, emit: int -> Option<Solution>): (r: seq<Solution>)
    ensures |r| <= |plates|
  {
    if plates == [] then []
    else Keep(plates[..|plates| - 1], emit) + Emitted(emit(plates[|plates| - 1]))
  }

  /** A loop over `modes` that runs `run` on each present target and skips the `None` placeholders. */
  function Gather(modes: seq<Option<Target>>, run: Target -> seq<Solution>): seq<Solution> {
    if modes == [] then []
    else Gather(modes[..|modes| - 1], run) + RunOn(modes[|modes| - 1], run)
  }

  function RunOn(o: Option<Target>, run: Target -> seq<Solution>): seq<Solution> {
    match o
    case None => []
    case Some(t) => run(t)
  }

  /** The inner loop's body for one mode, as a function of the plate. */
  function Emitter(t: Target, fullTurns: int, maxError: Fraction): int -> Option<Solution> {
    p => Candidate(t, p, fullTurns, maxError)
  }

  /** The inner loop, as a function of the mode's target. */
  function Runner(plates: seq<int>, fullTurns: int, maxError: Fraction): Target -> seq<Solution> {
    t => CollectPlates(t, plates, fullTurns, maxError)
  }

  /** The records the inner loop appends for one target, over the plates in order. */
  function CollectPlates(t: Target, plates: seq<int>, fullTurns: int, maxError: Fraction): seq<Solution> {
    Keep(plates, Emitter(t, fullTurns, maxError))
  }

  /** The records both loops append, mode by mode; a `None` mode adds nothing. */
  function CollectModes(modes: seq<Option<Target>>, plates: seq<int>, fullTurns: int, maxError: Fraction)
    : seq<Solution>
  {
    Gather(modes, Runner(plates, fullTurns, maxError))
  }

  // The loop shapes, for any loop body

  /** A record is kept exactly when some plate's body yields it. */
  lemma {:induction false} KeepMembers(plates: seq<int>, emit: int -> Option<Solution>, x: Solution)
    ensures x in Keep(plates, emit) <==> exists j :: 0 <= j < |plates| && emit(plates[j]) == Some(x)
  {
    if plates != [] {
      var init := plates[..|plates| - 1];
      var ki, e := Keep(init, emit), Emitted(emit(plates[|plates| - 1]));
      assert Keep(plates, emit) == ki + e;
      KeepMembers(init, emit, x);
      if x in ki + e && x !in ki {
        assert x in e;
      }
      if exists j :: 0 <= j < |plates| && emit(plates[j]) == Some(x) {
        var j :| 0 <= j < |plates| && emit(plates[j]) == Some(x);
        if j < |init| {
          assert init[j] == plates[j];
        }
      }
    }
  }

  /** Looping over `a + b` appends the records of `a`, then those of `b`: plate order is kept. */
  lemma {:induction false} KeepAppend(a: seq<int>, b: seq<int>, emit: int -> Option<Solution>)
    ensures Keep(a + b, emit) == Keep(a, emit) + Keep(b, emit)
  {
    if b == [] {
      assert a + b == a;
    } else {
      var init, last := b[..|b| - 1], b[|b| - 1];
      var ka, ki, e := Keep(a, emit), Keep(init, emit), Emitted(emit(last));
      assert Keep(a + b, emit) == Keep(a + init, emit) + e by {
        assert (a + b)[..|a + b| - 1] == a + init;
        assert (a + b)[|a + b| - 1] == last;
      }
      KeepAppend(a, init, emit);
      assert Keep(b, emit) == ki + e;
      assert (ka + ki) + e == ka + (ki + e);
    }
  }

  /** Three plates, spelled out. */
  lemma KeepThree(p: int, q: int, r: int, emit: int -> Option<Solution>)
    ensures Keep([p, q, r], emit) == Emitted(emit(p)) + Emitted(emit(q)) + Emitted(emit(r))
  {
    assert [p][..0] == [];
    assert Keep([p], emit) == [] + Emitted(emit(p)) == Emitted(emit(p));
    assert [p, q][..1] == [p];
    assert [p, q, r][..2] == [p, q];
  }

  /** A body that yields nothing on every plate collects nothing. */
  lemma {:induction false} KeepNothing(plates: seq<int>, emit: int -> Option<Solution>)
    requires forall p :: emit(p) == None
    ensures Keep(plates, emit) == []
  {
    if plates != [] {
      KeepNothing(plates[..|plates| - 1], emit);
    }
  }

  /** Two bodies that differ only in the mode label collect the same records, relabelled. */
  lemma {:induction false} KeepRelabel(plates: seq<int>, e1: int -> Option<Solution>, e2: int -> Option<Solution>,
                                       m: Mode)
    requires forall p :: e2(p) == if e1(p).Some? then Some(e1(p).value.(mode := m)) else None
    ensures Keep(plates, e2) == Relabel(Keep(plates, e1), m)
  {
    if plates != [] {
      var init, last := plates[..|plates| - 1], plates[|plates| - 1];
      KeepRelabel(init, e1, e2, m);
      var r := Keep(init, e1);
      if e1(last).Some? {
        assert (r + [e1(last).value])[..|r|] == r;
      } else {
        assert r + [] == r;
      }
    }
  }

  /** A record is gathered exactly when the run of some present target produces it. */
  lemma {:induction false} GatherMembers(modes: seq<Option<Target>>, run: Target -> seq<Solution>, x: Solution)
    ensures x in Gather(modes, run)
      <==> exists i :: 0 <= i < |modes| && modes[i].Some? && x in run(modes[i].value)
  {
    if modes != [] {
      var init, last := modes[..|modes| - 1], modes[|modes| - 1];
      var gi, r := Gather(init, run), RunOn(last, run);
      assert Gather(modes, run) == gi + r;
      GatherMembers(init, run, x);
      if x in gi + r && x !in gi {
        assert x in r;
      }
      if exists i :: 0 <= i < |modes| && modes[i].Some? && x in run(modes[i].value) {
        var i :| 0 <= i < |modes| && modes[i].Some? && x in run(modes[i].value);
        if i < |init| {
          assert init[i] == modes[i];
        }
      }
    }
  }

  /** With at most `k` records per run, `|modes|` runs gather at most `|modes| * k`. */
  lemma {:induction false} GatherLength(modes: seq<Option<Target>>, run: Target -> seq<Solution>, k: nat)
    requires forall t :: |run(t)| <= k
    ensures |Gather(modes, run)| <= |modes| * k
  {
    if modes != [] {
      GatherLength(modes[..|modes| - 1], run, k);
      assert |modes| * k == (|modes| - 1) * k + k;
    }
  }

  /** `s` with every record's mode replaced by `m`. */
  function Relabel(s: seq<Solution>, m: Mode): seq<Solution> {
    if s == [] then [] else Relabel(s[..|s| - 1], m) + [s[|s| - 1].(mode := m)]
  }

  /** Each mode adds at most one record per plate. */
  lemma CollectModesLength(modes: seq<Option<Target>>, plates: seq<int>, fullTurns: int, maxError: Fraction)
    ensures |CollectModes(modes, plates, fullTurns, maxError)| <= |modes| * |plates|
  {
    GatherLength(modes, Runner(plates, fullTurns, maxError), |plates|);
  }

  /** The `results` list before sorting. */
  function Collected(n: int, plates: seq<int>, wormTeeth: int, diffA: int, diffB: int, maxError: Fraction)
    : seq<Solution>
    requires n != 0 && diffB != 0
  {
    var split := TurnSplit(n, wormTeeth);
    CollectModes(ModeList(split.1, diffA, diffB), plates, split.0, maxError)
  }

  /** What `calculate_indexing` returns. */
  function Indexing(n: int, plates: seq<int>, wormTeeth: int, diffA: int, diffB: int, maxError: Fraction)
    : seq<Solution>
    requires n != 0 && diffB != 0
  {
    SortByError(Collected(n, plates, wormTeeth, diffA, diffB, maxError))
  }

  /**
    `calculate_indexing(N, plates, worm_teeth, diff_a, diff_b, max_error)`:
    the outer loop walks the mode list, skipping the placeholder with
    `continue`, the inner loop appends to `results`, and the result is the
    stable sort of it by error.
   */
  method CalculateIndexing(n: int, plates: seq<int>, wormTeeth: int, diffA: int, diffB: int, maxError: Fraction)
    returns (results: seq<Solution>)
    requires n != 0 && diffB != 0
    ensures results == Indexing(n, plates, wormTeeth, diffA, diffB, maxError)
  {
    var baseTurns := Make(wormTeeth, n);
    var fullTurns := baseTurns.num / baseTurns.den;
    var fracPart := Sub(baseTurns, FromInt(fullTurns));
    var modes := ModeList(fracPart, diffA, diffB);
    var collected: seq<Solution> := [];
    for i := 0 to |modes|
      invariant collected == CollectModes(modes[..i], plates, fullTurns, maxError)
    {
      assert modes[..i + 1][..i] == modes[..i];
      if modes[i].None? {
        continue;
      }
      collected := AppendPlateRecords(collected, modes[i].value, plates, fullTurns, maxError);
    }
    assert modes[..|modes|] == modes;
    results := SortByError(collected);
  }

  /**
    The inner loop `for plate in plates` for one mode: rounds, applies the
    guard and the tolerance with `continue`, and appends what survives.
   */
  method AppendPlateRecords(results: seq<Solution>, t: Target, plates: seq<int>, fullTurns: int, maxError: Fraction)
    returns (collected: seq<Solution>)
    ensures collected == results + CollectPlates(t, plates, fullTurns, maxError)
  {
    collected := results;
    for j := 0 to |plates|
      invariant collected == results + CollectPlates(t, plates[..j], fullTurns, maxError)
    {
      ghost var step := Candidate(t, plates[j], fullTurns, maxError);
      assert CollectPlates(t, plates[..j + 1], fullTurns, maxError)
        == CollectPlates(t, plates[..j], fullTurns, maxError) + Emitted(step) by {
        assert plates[..j + 1][..j] == plates[..j];
      }
      var plate := plates[j];
      var b := Round(MulInt(t.value, plate));
      if b == 0 || b >= plate {
        assert step == None;
        continue;
      }
      var actual := Make(b, plate);
      var error := MulInt(Abs(Sub(actual, t.value)), 100);
      if Le(error, maxError) {
        assert step == Some(Solution(t.mode, plate, b, actual, error, fullTurns));
        collected := collected + [Solution(t.mode, plate, b, actual, error, fullTurns)];
      } else {
        assert step == None;
      }
    }
    assert plates[..|plates|] == plates;
  }

  // Membership: which records the loops produce

  lemma CollectPlatesMembers(t: Target, plates: seq<int>, fullTurns: int, maxError: Fraction, x: Solution)
    ensures x in CollectPlates(t, plates, fullTurns, maxError)
      <==> exists j :: 0 <= j < |plates| && Candidate(t, plates[j], fullTurns, maxError) == Some(x)
  {
    KeepMembers(plates, Emitter(t, fullTurns, maxError), x);
  }

  lemma CollectModesMembers(modes: seq<Option<Target>>, plates: seq<int>, fullTurns: int, maxError: Fraction,
                            x: Solution)
    ensures x in CollectModes(modes, plates, fullTurns, maxError)
      <==> exists i :: 0 <= i < |modes| && modes[i].Some?
             && x in CollectPlates(modes[i].value, plates, fullTurns, maxError)
  {
    GatherMembers(modes, Runner(plates, fullTurns, maxError), x);
  }

  /**
    A record is in the result exactly when the plate loop of a visited mode
    appends it; `CollectPlatesMembers` says which (mode, plate) pair that is.
   */
  lemma IndexingMembers(n: int, plates: seq<int>, wormTeeth: int, diffA: int, diffB: int, maxError: Fraction,
                        x: Solution)
    requires n != 0 && diffB != 0
    ensures var split := TurnSplit(n, wormTeeth);
      x in Indexing(n, plates, wormTeeth, diffA, diffB, maxError)
      <==> exists m: Mode :: Active(m, diffA)
             && x in CollectPlates(Target(m, ModeTarget(m, split.1, diffA, diffB)), plates, split.0, maxError)
  {
    var split := TurnSplit(n, wormTeeth);
    var modes := ModeList(split.1, diffA, diffB);
    var collected := Collected(n, plates, wormTeeth, diffA, diffB, maxError);
    var result := Indexing(n, plates, wormTeeth, diffA, diffB, maxError);
    assert multiset(result) == multiset(collected);
    assert x in result <==> x in multiset(result);
    assert x in collected <==> x in multiset(collected);
    CollectModesMembers(modes, plates, split.0, maxError, x);
    ModeListEntries(split.1, diffA, diffB);
    if x in collected {
      var i :| 0 <= i < |modes| && modes[i].Some? && x in CollectPlates(modes[i].value, plates, split.0, maxError);
      var m := modes[i].value.mode;
      assert modes[ModeIndex(m)] == modes[i];
      assert Active(m, diffA) && modes[i].value == Target(m, ModeTarget(m, split.1, diffA, diffB));
    }
    if exists m: Mode :: Active(m, diffA)
         && x in CollectPlates(Target(m, ModeTarget(m, split.1, diffA, diffB)), plates, split.0, maxError) {
      var m: Mode :| Active(m, diffA)
        && x in CollectPlates(Target(m, ModeTarget(m, split.1, diffA, diffB)), plates, split.0, maxError);
      var i := ModeIndex(m);
      assert modes[i] == Some(Target(m, ModeTarget(m, split.1, diffA, diffB)));
    }
  }

  /** The position of each mode in the list the outer loop walks. */
  function ModeIndex(m: Mode): (i: nat)
    ensures i < 3
  {
    match m
    case Simple => 0
    case DifferentialPlus => 1
    case DifferentialMinus => 2
  }

  /** Entry `i` of the mode list is the mode at position `i` with its target, when that mode is visited. */
  lemma ModeListEntries(fracPart: Fraction, diffA: int, diffB: int)
    requires diffB != 0
    ensures var modes := ModeList(fracPart, diffA, diffB);
      |modes| == 3 && forall m: Mode ::
        modes[ModeIndex(m)] == if Active(m, diffA) then Some(Target(m, ModeTarget(m, fracPart, diffA, diffB))) else None
    ensures var modes := ModeList(fracPart, diffA, diffB);
      forall i | 0 <= i < |modes| && modes[i].Some? :: ModeIndex(modes[i].value.mode) == i
  {
  }

  /**
    Every returned record: its mode was visited, `b` is the rounded hole
    count with `b != 0` and `b < plate` (a negative `b` is not excluded),
    the fraction is `b/plate`, the error is the exact percentage deviation
    from the mode's target and within the tolerance, and `fullTurns` is the
    same whole-turn count for all records.
   */
  lemma IndexingRecords(n: int, plates: seq<int>, wormTeeth: int, diffA: int, diffB: int, maxError: Fraction)
    requires n != 0 && diffB != 0
    ensures var split := TurnSplit(n, wormTeeth);
      forall x | x in Indexing(n, plates, wormTeeth, diffA, diffB, maxError) ::
        var t := ModeTarget(x.mode, split.1, diffA, diffB);
        && Active(x.mode, diffA) && x.plate in plates
        && Candidate(Target(x.mode, t), x.plate, split.0, maxError) == Some(x)
        && x.b == HoleCount(t, x.plate) && x.b != 0 && x.b < x.plate
        && Value(x.fraction) == x.b as real / x.plate as real && LowestTerms(x.fraction)
        && Value(x.error) == PercentError(x.b, x.plate, t)
        && Value(x.error) <= Value(maxError)
        && x.fullTurns == split.0
  {
    var split := TurnSplit(n, wormTeeth);
    forall x | x in Indexing(n, plates, wormTeeth, diffA, diffB, maxError)
      ensures Active(x.mode, diffA) && x.plate in plates
      ensures Candidate(Target(x.mode, ModeTarget(x.mode, split.1, diffA, diffB)), x.plate, split.0, maxError) == Some(x)
      ensures LowestTerms(x.fraction)
    {
      IndexingMembers(n, plates, wormTeeth, diffA, diffB, maxError, x);
      var m: Mode :| Active(m, diffA)
        && x in CollectPlates(Target(m, ModeTarget(m, split.1, diffA, diffB)), plates, split.0, maxError);
      var t := Target(m, ModeTarget(m, split.1, diffA, diffB));
      CollectPlatesMembers(t, plates, split.0, maxError, x);
      var j :| 0 <= j < |plates| && Candidate(t, plates[j], split.0, maxError) == Some(x);
      CandidateInLowestTerms(t, plates[j], split.0, maxError);
    }
  }

  /**
    Completeness: a (mode, plate) pair has a record in the result exactly
    when the plate is listed, the mode is visited, and the candidate of that
    pair passes the guard and the tolerance; that candidate is then returned.
   */
  lemma IndexingComplete(n: int, plates: seq<int>, wormTeeth: int, diffA: int, diffB: int, maxError: Fraction,
                         m: Mode, p: int)
    requires n != 0 && diffB != 0
    ensures var split := TurnSplit(n, wormTeeth);
      var c := Candidate(Target(m, ModeTarget(m, split.1, diffA, diffB)), p, split.0, maxError);
      p in plates && Active(m, diffA) && c.Some? ==> c.value in Indexing(n, plates, wormTeeth, diffA, diffB, maxError)
    ensures var split := TurnSplit(n, wormTeeth);
      (exists x :: x in Indexing(n, plates, wormTeeth, diffA, diffB, maxError) && x.mode == m && x.plate == p)
      <==> p in plates && Active(m, diffA)
           && Candidate(Target(m, ModeTarget(m, split.1, diffA, diffB)), p, split.0, maxError).Some?
  {
    var split := TurnSplit(n, wormTeeth);
    var t := Target(m, ModeTarget(m, split.1, diffA, diffB));
    var c := Candidate(t, p, split.0, maxError);
    var result := Indexing(n, plates, wormTeeth, diffA, diffB, maxError);
    if p in plates && Active(m, diffA) && c.Some? {
      var j :| 0 <= j < |plates| && plates[j] == p;
      CollectPlatesMembers(t, plates, split.0, maxError, c.value);
      IndexingMembers(n, plates, wormTeeth, diffA, diffB, maxError, c.value);
      assert c.value.mode == m && c.value.plate == p;
    }
    if exists x :: x in result && x.mode == m && x.plate == p {
      var x :| x in result && x.mode == m && x.plate == p;
      IndexingRecords(n, plates, wormTeeth, diffA, diffB, maxError);
      assert Candidate(Target(x.mode, ModeTarget(x.mode, split.1, diffA, diffB)), x.plate, split.0, maxError) == Some(x);
    }
  }

  /** At most one record per mode and plate: the output has at most `3 * |plates|` records. */
  lemma IndexingLength(n: int, plates: seq<int>, wormTeeth: int, diffA: int, diffB: int, maxError: Fraction)
    requires n != 0 && diffB != 0
    ensures |Indexing(n, plates, wormTeeth, diffA, diffB, maxError)| <= 3 * |plates|
  {
    var split := TurnSplit(n, wormTeeth);
    CollectModesLength(ModeList(split.1, diffA, diffB), plates, split.0, maxError);
    var collected := Collected(n, plates, wormTeeth, diffA, diffB, maxError);
    assert |multiset(Indexing(n, plates, wormTeeth, diffA, diffB, maxError))| == |multiset(collected)|;
  }

  /** With a tolerance of zero only exact matches of the mode's target survive. */
  lemma ZeroToleranceExact(n: int, plates: seq<int>, wormTeeth: int, diffA: int, diffB: int, maxError: Fraction)
    requires n != 0 && diffB != 0 && Value(maxError) <= 0.0
    ensures var split := TurnSplit(n, wormTeeth);
      forall x | x in Indexing(n, plates, wormTeeth, diffA, diffB, maxError) ::
        Value(x.error) == 0.0 && Value(x.fraction) == Value(ModeTarget(x.mode, split.1, diffA, diffB))
  {
    IndexingRecords(n, plates, wormTeeth, diffA, diffB, maxError);
  }

  // Loop order, the differential modes and the degenerate case

  /** What the plate loop appends for mode `m`; nothing for a mode the outer loop skips. */
  function ModeRecords(m: Mode, n: int, plates: seq<int>, wormTeeth: int, diffA: int, diffB: int, maxError: Fraction)
    : seq<Solution>
    requires n != 0 && diffB != 0
  {
    var split := TurnSplit(n, wormTeeth);
    if Active(m, diffA) then CollectPlates(Target(m, ModeTarget(m, split.1, diffA, diffB)), plates, split.0, maxError)
    else []
  }

  /** The unsorted list holds the Simple records, then "Differential +", then "Differential -". */
  lemma CollectedByMode(n: int, plates: seq<int>, wormTeeth: int, diffA: int, diffB: int, maxError: Fraction)
    requires n != 0 && diffB != 0
    ensures Collected(n, plates, wormTeeth, diffA, diffB, maxError)
      == ModeRecords(Simple, n, plates, wormTeeth, diffA, diffB, maxError)
       + ModeRecords(DifferentialPlus, n, plates, wormTeeth, diffA, diffB, maxError)
       + ModeRecords(DifferentialMinus, n, plates, wormTeeth, diffA, diffB, maxError)
  {
    var split := TurnSplit(n, wormTeeth);
    var modes := ModeList(split.1, diffA, diffB);
    ModeListEntries(split.1, diffA, diffB);
    GatherThree(modes[0], modes[1], modes[2], Runner(plates, split.0, maxError));
    assert modes == [modes[0], modes[1], modes[2]];
  }

  /** The three-entry mode list gathers its entries' records in list order. */
  lemma GatherThree(a: Option<Target>, b: Option<Target>, c: Option<Target>, run: Target -> seq<Solution>)
    ensures Gather([a, b, c], run) == RunOn(a, run) + RunOn(b, run) + RunOn(c, run)
  {
    assert [a][..0] == [];
    assert Gather([a], run) == [] + RunOn(a, run) == RunOn(a, run);
    assert [a, b][..1] == [a];
    assert Gather([a, b], run) == RunOn(a, run) + RunOn(b, run);
    assert [a, b, c][..2] == [a, b];
  }

  /**
    Records with equal error come out in loop order: all Simple ones first,
    then "Differential +", then "Differential -", each group in plate order.
   */
  lemma TiesKeepLoopOrder(n: int, plates: seq<int>, wormTeeth: int, diffA: int, diffB: int, maxError: Fraction, e: real)
    requires n != 0 && diffB != 0
    ensures WithError(Indexing(n, plates, wormTeeth, diffA, diffB, maxError), e)
      == WithError(ModeRecords(Simple, n, plates, wormTeeth, diffA, diffB, maxError), e)
       + WithError(ModeRecords(DifferentialPlus, n, plates, wormTeeth, diffA, diffB, maxError), e)
       + WithError(ModeRecords(DifferentialMinus, n, plates, wormTeeth, diffA, diffB, maxError), e)
  {
    var s := ModeRecords(Simple, n, plates, wormTeeth, diffA, diffB, maxError);
    var p := ModeRecords(DifferentialPlus, n, plates, wormTeeth, diffA, diffB, maxError);
    var m := ModeRecords(DifferentialMinus, n, plates, wormTeeth, diffA, diffB, maxError);
    CollectedByMode(n, plates, wormTeeth, diffA, diffB, maxError);
    WithErrorAppend(s + p, m, e);
    WithErrorAppend(s, p, e);
  }


  /** Two modes with the same target produce the same records, differing only in the mode label. */
  lemma SameTargetSameRecords(v: Fraction, m1: Mode, m2: Mode, plates: seq<int>, fullTurns: int, maxError: Fraction)
    ensures CollectPlates(Target(m2, v), plates, fullTurns, maxError)
      == Relabel(CollectPlates(Target(m1, v), plates, fullTurns, maxError), m2)
  {
    var e1, e2 := Emitter(Target(m1, v), fullTurns, maxError), Emitter(Target(m2, v), fullTurns, maxError);
    forall p ensures e2(p) == if e1(p).Some? then Some(e1(p).value.(mode := m2)) else None {
      CandidateRelabel(v, m1, m2, p, fullTurns, maxError);
    }
    KeepRelabel(plates, e1, e2, m2);
  }

  /** The mode label does not take part in a candidate's arithmetic. */
  lemma CandidateRelabel(v: Fraction, m1: Mode, m2: Mode, plate: int, fullTurns: int, maxError: Fraction)
    ensures var c := Candidate(Target(m1, v), plate, fullTurns, maxError);
      Candidate(Target(m2, v), plate, fullTurns, maxError) == if c.Some? then Some(c.value.(mode := m2)) else None
  {
  }

  /**
    With `diff_a = 0` there are no "Differential -" records, and the
    "Differential +" records are the Simple records again under the other
    label: the differential ratio `0/diff_b` does not move the target.
   */
  lemma DiffAZeroCopies(n: int, plates: seq<int>, wormTeeth: int, diffA: int, diffB: int, maxError: Fraction)
    requires n != 0 && diffB != 0 && diffA == 0
    ensures ModeRecords(DifferentialMinus, n, plates, wormTeeth, diffA, diffB, maxError) == []
    ensures ModeRecords(DifferentialPlus, n, plates, wormTeeth, diffA, diffB, maxError)
      == Relabel(ModeRecords(Simple, n, plates, wormTeeth, diffA, diffB, maxError), DifferentialPlus)
    ensures Collected(n, plates, wormTeeth, diffA, diffB, maxError)
      == ModeRecords(Simple, n, plates, wormTeeth, diffA, diffB, maxError)
       + Relabel(ModeRecords(Simple, n, plates, wormTeeth, diffA, diffB, maxError), DifferentialPlus)
  {
    var split := TurnSplit(n, wormTeeth);
    var baseTurns := Make(wormTeeth, n);
    OperationsInLowestTerms(baseTurns, FromInt(split.0), 0);
    AddZero(split.1, diffB);
    SameTargetSameRecords(split.1, Simple, DifferentialPlus, plates, split.0, maxError);
    CollectedByMode(n, plates, wormTeeth, diffA, diffB, maxError);
  }

  /** A target of zero rounds to `b = 0`, which the guard drops. */
  lemma ZeroTargetNoCandidate(t: Target, plate: int, fullTurns: int, maxError: Fraction)
    requires Value(t.value) == 0.0
    ensures Candidate(t, plate, fullTurns, maxError) == None
  {
    assert Value(t.value) * plate as real == 0.0;
  }

  /** A target of zero yields no record on any plate. */
  lemma ZeroTargetNoRecords(t: Target, plates: seq<int>, fullTurns: int, maxError: Fraction)
    requires Value(t.value) == 0.0
    ensures CollectPlates(t, plates, fullTurns, maxError) == []
  {
    forall p ensures Emitter(t, fullTurns, maxError)(p) == None {
      ZeroTargetNoCandidate(t, p, fullTurns, maxError);
    }
    KeepNothing(plates, Emitter(t, fullTurns, maxError));
  }

  lemma ExactQuotient(a: int, n: int, k: int)
    requires n != 0 && a == n * k
    ensures a as real / n as real == k as real
  {
    MulReal(n, k);
  }

  /** When N divides the worm's tooth count the turn is whole: `full_turns = worm_teeth / N` and no remainder. */
  lemma IntegralTurns(n: int, wormTeeth: int)
    requires n != 0 && wormTeeth % n == 0
    ensures TurnSplit(n, wormTeeth).0 == wormTeeth / n
    ensures Value(TurnSplit(n, wormTeeth).1) == 0.0
  {
    ExactQuotient(wormTeeth, n, wormTeeth / n);
  }

  /**
    With a whole number of turns Simple mode yields nothing, and with
    `diff_a = 0` the whole result is empty.
   */
  lemma IntegralTurnsNoSimple(n: int, plates: seq<int>, wormTeeth: int, diffA: int, diffB: int, maxError: Fraction)
    requires n != 0 && diffB != 0 && wormTeeth % n == 0
    ensures ModeRecords(Simple, n, plates, wormTeeth, diffA, diffB, maxError) == []
    ensures forall x | x in Indexing(n, plates, wormTeeth, diffA, diffB, maxError) :: x.mode != Simple
    ensures diffA == 0 ==> Indexing(n, plates, wormTeeth, diffA, diffB, maxError) == []
  {
    var split := TurnSplit(n, wormTeeth);
    IntegralTurns(n, wormTeeth);
    ZeroTargetNoRecords(Target(Simple, split.1), plates, split.0, maxError);
    if diffA == 0 {
      DiffAZeroCopies(n, plates, wormTeeth, diffA, diffB, maxError);
      assert Collected(n, plates, wormTeeth, diffA, diffB, maxError) == [];
    }
    IndexingRecords(n, plates, wormTeeth, diffA, diffB, maxError);
    forall x | x in Indexing(n, plates, wormTeeth, diffA, diffB, maxError) ensures x.mode != Simple {
      ZeroTargetNoCandidate(Target(Simple, split.1), x.plate, split.0, maxError);
    }
  }

  // Worked scenarios

  /** N = 73 with a 40-tooth worm: the turn is exactly 40/73, with no whole turn. */
  lemma SeventyThreeDivisions()
    ensures TurnSplit(73, 40) == (0, Frac(40, 73))
  {
    MakeLowestTerms(40, 73);
  }

  /** On plate 20 the 40/73 turn rounds to b = 11, the fraction 11/20, which misses it by 15/73 %. */
  lemma SeventyThreePlate20()
    ensures Candidate(Target(Simple, Frac(40, 73)), 20, 0, Frac(1, 2))
      == Some(Solution(Simple, 20, 11, Frac(11, 20), Frac(15, 73), 0))
  {
    var b := HoleCount(Frac(40, 73), 20);
    assert b == 11 by {
      assert Value(Frac(40, 73)) * 20 as real == 800.0 / 73.0;
    }
    assert Make(11, 20) == Frac(11, 20) by { MakeLowestTerms(11, 20); }
    assert Sub(Frac(11, 20), Frac(40, 73)) == Frac(3, 1460) by { MakeLowestTerms(3, 1460); }
    assert Abs(Frac(3, 1460)) == Frac(3, 1460);
    assert MulInt(Frac(3, 1460), 100) == Frac(15, 73) by {
      assert Gcd(300, 1460) == Gcd(1460, 300) == Gcd(300, 260) == Gcd(260, 40) == Gcd(40, 20) == Gcd(20, 0) == 20;
    }
    assert Le(Frac(15, 73), Frac(1, 2));
  }

  /** On plate 21 the 40/73 turn rounds to b = 12, which misses it by 1200/511 %, over 0.5%. */
  lemma SeventyThreePlate21()
    ensures Candidate(Target(Simple, Frac(40, 73)), 21, 0, Frac(1, 2)) == None
  {
    var b := HoleCount(Frac(40, 73), 21);
    assert Value(Frac(40, 73)) * 21 as real == 840.0 / 73.0;
    assert b == 12;
    assert PercentError(b, 21, Frac(40, 73)) == 1200.0 / 511.0;
  }

  /** On plate 24 the 40/73 turn rounds to b = 13, which misses it by 1100/1752 %, over 0.5%. */
  lemma SeventyThreePlate24()
    ensures Candidate(Target(Simple, Frac(40, 73)), 24, 0, Frac(1, 2)) == None
  {
    var b := HoleCount(Frac(40, 73), 24);
    assert Value(Frac(40, 73)) * 24 as real == 960.0 / 73.0;
    assert b == 13;
    assert PercentError(b, 24, Frac(40, 73)) == 1100.0 / 1752.0;
  }

  /** The Simple plate loop over 20, 21 and 24 keeps only the plate-20 record. */
  lemma SeventyThreePlates()
    ensures CollectPlates(Target(Simple, Frac(40, 73)), [20, 21, 24], 0, Frac(1, 2))
      == [Solution(Simple, 20, 11, Frac(11, 20), Frac(15, 73), 0)]
  {
    var e := Emitter(Target(Simple, Frac(40, 73)), 0, Frac(1, 2));
    var x := Solution(Simple, 20, 11, Frac(11, 20), Frac(15, 73), 0);
    assert e(20) == Some(x) by { SeventyThreePlate20(); }
    assert e(21) == None by { SeventyThreePlate21(); }
    assert e(24) == None by { SeventyThreePlate24(); }
    KeepThree(20, 21, 24, e);
  }

  /**
    The same request over plates 20, 21 and 24 with a 0.5% tolerance: only
    plate 20 is within it, and with `diff_a = 0` its record appears twice,
    Simple first.
   */
  lemma SeventyThreeResult()
    ensures Indexing(73, [20, 21, 24], 40, 0, 1, Frac(1, 2))
      == [ Solution(Simple, 20, 11, Frac(11, 20), Frac(15, 73), 0),
           Solution(DifferentialPlus, 20, 11, Frac(11, 20), Frac(15, 73), 0) ]
  {
    var x := Solution(Simple, 20, 11, Frac(11, 20), Frac(15, 73), 0);
    var y := x.(mode := DifferentialPlus);
    SeventyThreeDivisions();
    SeventyThreePlates();
    DiffAZeroCopies(73, [20, 21, 24], 40, 0, 1, Frac(1, 2));
    assert Relabel([x], DifferentialPlus) == [y] by {
      assert [x][..0] == [];
    }
    assert Collected(73, [20, 21, 24], 40, 0, 1, Frac(1, 2)) == [x, y];
    assert [x, y][..1] == [x] && [x][..0] == [];
    assert SortByError([x]) == [x];
    assert Insert(y, [x]) == [x, y];
  }

  /**
    N = 3 with differential a/b = 1/2 on plate 12: 40/3 is 13 turns and 1/3.
    "Differential -" aims at 1/3 - 1/2 = -1/6, so `b = -2`, which the guard
    `b == 0 or b >= plate` lets through as an exact match.
   */
  lemma NegativeHoleCount()
    ensures TurnSplit(3, 40) == (13, Frac(1, 3))
    ensures ModeTarget(DifferentialMinus, Frac(1, 3), 1, 2) == Frac(-1, 6)
    ensures Candidate(Target(DifferentialMinus, Frac(-1, 6)), 12, 13, Frac(0, 1))
      == Some(Solution(DifferentialMinus, 12, -2, Frac(-1, 6), Frac(0, 1), 13))
  {
    MakeLowestTerms(40, 3);
    assert Sub(Frac(40, 3), Frac(13, 1)) == Frac(1, 3) by { MakeLowestTerms(1, 3); }
    MakeLowestTerms(1, 2);
    assert Sub(Frac(1, 3), Frac(1, 2)) == Frac(-1, 6) by { MakeLowestTerms(-1, 6); }
    assert Make(-12, 6) == Frac(-2, 1);
    assert Round(Frac(-2, 1)) == -2;
    assert Make(-2, 12) == Frac(-1, 6);
    assert Sub(Frac(-1, 6), Frac(-1, 6)) == Frac(0, 1) by { MakeZero(36); }
  }
}
