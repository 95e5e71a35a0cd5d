/**
 * What the chain-stitching builder promises, proved about its specification
 * `ChainStitch.Stitch`: the seed, the order and shape of the splices, the
 * bookkeeping of used lines, the length of the result, how the chase stops,
 * and closure.
 */
module ChainProperties {
  import opened Survey
  import opened ChainStitch

  /** The distinct listed ids that the line table knows. */
  ghost function Resolvable<C>(ids: seq<string>, lines: map<string, Line<C>>): set<string>
  {
    set i | 0 <= i < |ids| && ids[i] in lines :: ids[i]
  }

  /** Every splice is a listed line of the table, laid with the table's non-empty path. */
  ghost predicate WellSpliced<C>(ids: seq<string>, lines: map<string, Line<C>>, splices: seq<Splice<C>>)
  {
    forall i :: 0 <= i < |splices| ==>
      && splices[i].id in ids && splices[i].id in lines
      && splices[i].line == lines[splices[i].id].path && |splices[i].line| > 0
  }

  /**
   * Consecutive splices meet: the first one starts at `t`, and each later one
   * starts where the one before it ended.
   */
  ghost predicate Joined<C>(t: C, splices: seq<Splice<C>>)
    requires NonEmptyLines(splices)
  {
    && (|splices| > 0 ==> Entry(splices[0]) == t)
    && forall i :: 0 < i < |splices| ==> Entry(splices[i]) == Exit(splices[i - 1])
  }

  /** The tail after the splices, starting from tail `t`. */
  function TailAfter<C>(t: C, splices: seq<Splice<C>>): C
    requires NonEmptyLines(splices)
  {
    if splices == [] then t else Exit(Last(splices))
  }

  /** The path is the seed followed by the pieces of the splices, with the matching length. */
  ghost predicate PathInv<C>(seed: seq<C>, path: seq<C>, splices: seq<Splice<C>>)
    requires NonEmptyLines(splices)
  {
    && path == seed + Pieces(splices)
    && |path| == |seed| + AddedLength(splices)
    && (splices != [] ==> seed != [])
    && (seed != [] ==> Joined(Last(seed), splices) && Last(path) == TailAfter(Last(seed), splices))
  }

  /** The used set: the seed's id plus one new resolvable listed id per splice. */
  ghost predicate UsedInv<C>(ids: seq<string>, lines: map<string, Line<C>>, seedUsed: set<string>,
                             used: set<string>, splices: seq<Splice<C>>)
  {
    && seedUsed <= used <= Resolvable(ids, lines)
    && |used| == |seedUsed| + |splices|
    && (forall i :: 0 <= i < |splices| ==> splices[i].id in used && splices[i].id !in seedUsed)
    && (forall i, j :: 0 <= i < j < |splices| ==> splices[i].id != splices[j].id)
  }

  /** The invariant of the chase, relative to its seed. */
  ghost predicate ChaseInv<C>(ids: seq<string>, lines: map<string, Line<C>>, seed: seq<C>, seedUsed: set<string>,
                              used: set<string>, path: seq<C>, splices: seq<Splice<C>>)
  {
    && WellSpliced(ids, lines, splices)
    && PathInv(seed, path, splices)
    && UsedInv(ids, lines, seedUsed, used, splices)
  }

  /**
   * After a splice whose entry point is the tail, the new tail is the splice's
   * exit: `line[-1]` when laid forwards, `line[0]` when reversed.
   */
  lemma SpliceTail<C>(path: seq<C>, s: Splice<C>)
    requires |path| > 0 && |s.line| > 0 && Entry(s) == Last(path)
    ensures |path + Piece(s.line, s.dir)| == |path| + |s.line| - 1
    ensures Last(path + Piece(s.line, s.dir)) == Exit(s)
    ensures s.dir == Forward ==> Last(path + Piece(s.line, s.dir)) == Last(s.line)
    ensures s.dir == Reversed ==> Last(path + Piece(s.line, s.dir)) == s.line[0]
  {
    var p := Piece(s.line, s.dir);
    if |p| > 0 {
      assert Last(path + p) == p[|p| - 1];
    } else {
      assert path + p == path;
    }
  }

  /** The pieces and added length of a run with one more splice. */
  lemma PiecesSnoc<C>(splices: seq<Splice<C>>, s: Splice<C>)
    requires NonEmptyLines(splices)
    requires |s.line| > 0
    ensures NonEmptyLines(splices + [s])
    ensures Pieces(splices + [s]) == Pieces(splices) + Piece(s.line, s.dir)
    ensures AddedLength(splices + [s]) == AddedLength(splices) + |s.line| - 1
  {
    var next := splices + [s];
    assert next[..|next| - 1] == splices;
  }

  /** A splice that starts at the tail left by the run keeps the run joined. */
  lemma JoinedSnoc<C>(t: C, splices: seq<Splice<C>>, s: Splice<C>)
    requires NonEmptyLines(splices)
    requires |s.line| > 0
    requires Joined(t, splices) && Entry(s) == TailAfter(t, splices)
    ensures NonEmptyLines(splices + [s])
    ensures Joined(t, splices + [s]) && TailAfter(t, splices + [s]) == Exit(s)
  {
    var next := splices + [s];
    forall i | 0 < i < |next|
      ensures Entry(next[i]) == Exit(next[i - 1])
    {
      if i < |splices| {
        assert next[i] == splices[i] && next[i - 1] == splices[i - 1];
      } else {
        assert next[i - 1] == Last(splices);
      }
    }
  }

  /** One splice that starts at the tail keeps the splices joined and the tail at the last exit. */
  lemma TailStep<C>(seed: seq<C>, path: seq<C>, splices: seq<Splice<C>>, s: Splice<C>)
    requires NonEmptyLines(splices)
    requires |s.line| > 0 && |path| > 0 && Entry(s) == Last(path) && seed != []
    requires Joined(Last(seed), splices) && Last(path) == TailAfter(Last(seed), splices)
    ensures NonEmptyLines(splices + [s])
    ensures Joined(Last(seed), splices + [s])
    ensures Last(path + Piece(s.line, s.dir)) == TailAfter(Last(seed), splices + [s])
  {
    JoinedSnoc(Last(seed), splices, s);
    SpliceTail(path, s);
  }

  /** One splice appends its piece: the path stays the seed followed by the pieces, with the matching length. */
  lemma ShapeStep<C>(seed: seq<C>, path: seq<C>, splices: seq<Splice<C>>, s: Splice<C>)
    requires NonEmptyLines(splices) && |s.line| > 0
    requires path == seed + Pieces(splices) && |path| == |seed| + AddedLength(splices)
    ensures NonEmptyLines(splices + [s])
    ensures path + Piece(s.line, s.dir) == seed + Pieces(splices + [s])
    ensures |path + Piece(s.line, s.dir)| == |seed| + AddedLength(splices + [s])
  {
    PiecesSnoc(splices, s);
    Associative(seed, Pieces(splices), Piece(s.line, s.dir));
  }

  /** Concatenation is associative. */
  lemma Associative<T>(a: seq<T>, b: seq<T>, c: seq<T>)
    ensures (a + b) + c == a + (b + c)
  {
  }

  /** One splice keeps the path part of the invariant. */
  lemma PathStep<C>(seed: seq<C>, path: seq<C>, splices: seq<Splice<C>>, s: Splice<C>)
    requires NonEmptyLines(splices)
    requires |s.line| > 0 && |path| > 0 && Entry(s) == Last(path)
    requires PathInv(seed, path, splices)
    ensures NonEmptyLines(splices + [s])
    ensures PathInv(seed, path + Piece(s.line, s.dir), splices + [s])
  {
    ShapeStep(seed, path, splices, s);
    if splices == [] {
      assert path == seed + [];
    }
    TailStep(seed, path, splices, s);
  }

  /** One splice of an unused resolvable listed line keeps the used-set part of the invariant. */
  lemma UsedStep<C>(ids: seq<string>, lines: map<string, Line<C>>, seedUsed: set<string>,
                    used: set<string>, splices: seq<Splice<C>>, k: nat, s: Splice<C>)
    requires UsedInv(ids, lines, seedUsed, used, splices)
    requires k < |ids| && ids[k] in lines && ids[k] !in used && s.id == ids[k]
    ensures UsedInv(ids, lines, seedUsed, used + {ids[k]}, splices + [s])
  {
    var next := splices + [s];
    assert ids[k] in Resolvable(ids, lines);
    forall i | 0 <= i < |next|
      ensures next[i].id in used + {ids[k]} && next[i].id !in seedUsed
    {
      if i < |splices| {
        assert next[i] == splices[i];
      }
    }
    forall i, j | 0 <= i < j < |next|
      ensures next[i].id != next[j].id
    {
      assert next[i] == splices[i];
      if j < |splices| {
        assert next[j] == splices[j];
      }
    }
  }

  /** One iteration of the chase keeps its invariant and uses one more id. */
  lemma KeepStep<C>(ids: seq<string>, lines: map<string, Line<C>>, seed: seq<C>, seedUsed: set<string>,
                    used: set<string>, path: seq<C>, splices: seq<Splice<C>>, k: nat, dir: Direction)
    returns (nextUsed: set<string>, next: seq<C>, nextSplices: seq<Splice<C>>)
    requires ChaseInv(ids, lines, seed, seedUsed, used, path, splices)
    requires |path| > 0 && |used| < |ids| && Scan(ids, lines, used, Last(path), 0) == Match(k, dir)
    ensures ChaseFrom(ids, lines, used, path, splices) == ChaseFrom(ids, lines, nextUsed, next, nextSplices)
    ensures ChaseInv(ids, lines, seed, seedUsed, nextUsed, next, nextSplices)
    ensures |nextUsed| == |used| + 1
  {
    ChaseStep(ids, lines, used, path, splices, k, dir);
    var s := Splice(ids[k], dir, lines[ids[k]].path);
    assert Entry(s) == Last(path);
    PathStep(seed, path, splices, s);
    UsedStep(ids, lines, seedUsed, used, splices, k, s);
    nextUsed, next, nextSplices := used + {ids[k]}, path + Piece(s.line, dir), splices + [s];
  }

  /** The chase keeps its invariant to the end. */
  lemma {:induction false} ChaseKeeps<C>(ids: seq<string>, lines: map<string, Line<C>>, seed: seq<C>,
                                         seedUsed: set<string>, used: set<string>, path: seq<C>,
                                         splices: seq<Splice<C>>)
    requires ChaseInv(ids, lines, seed, seedUsed, used, path, splices)
    ensures var r := ChaseFrom(ids, lines, used, path, splices);
      r.Chased? ==> ChaseInv(ids, lines, seed, seedUsed, r.used, r.path, r.splices)
    decreases |ids| - |used|
  {
    if |path| > 0 && |used| < |ids| {
      var scan := Scan(ids, lines, used, Last(path), 0);
      if scan.Match? {
        var nextUsed, next, nextSplices := KeepStep(ids, lines, seed, seedUsed, used, path, splices, scan.at, scan.dir);
        ChaseKeeps(ids, lines, seed, seedUsed, nextUsed, next, nextSplices);
      }
    }
  }

  /**
   * Why a chase stops: an empty path, every listed slot used, or no unused
   * listed line touching the tail; a crash names an unused listed line of the
   * table whose path is empty.
   */
  lemma {:induction false} ChaseStops<C>(ids: seq<string>, lines: map<string, Line<C>>, used: set<string>,
                                         path: seq<C>, splices: seq<Splice<C>>)
    ensures var r := ChaseFrom(ids, lines, used, path, splices);
      && (r.Chased? && r.stop == EmptyPath ==> r.path == [])
      && (r.Chased? && r.stop == AllUsed ==> r.path != [] && |r.used| >= |ids|)
      && (r.Chased? && r.stop == NoContinuation ==>
            && r.path != [] && |r.used| < |ids|
            && forall j :: 0 <= j < |ids| ==> Passes(ids, lines, r.used, Last(r.path), j))
      && (r.Crashed? ==> r.lineId in ids && r.lineId in lines && r.lineId !in used && |lines[r.lineId].path| == 0)
    decreases |ids| - |used|
  {
    if |path| > 0 && |used| < |ids| {
      match Scan(ids, lines, used, Last(path), 0)
      case NoMatch =>
      case EmptyLine(_) =>
      case Match(k, dir) =>
        var s := Splice(ids[k], dir, lines[ids[k]].path);
        ChaseStops(ids, lines, used + {ids[k]}, path + Piece(s.line, dir), splices + [s]);
    }
  }

  /** The seed state satisfies the invariant. */
  lemma SeedInv<C>(ids: seq<string>, lines: map<string, Line<C>>)
    ensures ChaseInv(ids, lines, SeedPath(ids, lines), SeedUsed(ids, lines),
                     SeedUsed(ids, lines), SeedPath(ids, lines), [])
  {
    var seed := SeedPath(ids, lines);
    assert seed + Pieces<C>([]) == seed;
    if |ids| > 0 && ids[0] in lines {
      assert ids[0] in Resolvable(ids, lines);
    }
  }

  /** The invariant holds of the final state of a whole chase. */
  lemma ChaseFinal<C>(ids: seq<string>, lines: map<string, Line<C>>)
    requires Chase(ids, lines).Chased?
    ensures var r := Chase(ids, lines);
      ChaseInv(ids, lines, SeedPath(ids, lines), SeedUsed(ids, lines), r.used, r.path, r.splices)
  {
    SeedInv(ids, lines);
    ChaseKeeps(ids, lines, SeedPath(ids, lines), SeedUsed(ids, lines),
               SeedUsed(ids, lines), SeedPath(ids, lines), []);
  }

  // ----- The builder's promises -----

  /**
   * When the first listed id is not in the line table (or nothing is listed),
   * no other id is tried as a seed: the chase never runs and the face's path
   * is empty.
   */
  lemma SeedUnresolved<C>(ids: seq<string>, lines: map<string, Line<C>>)
    requires |ids| == 0 || ids[0] !in lines
    ensures Chase(ids, lines) == Chased([], [], {}, EmptyPath)
    ensures Stitch(ids, lines) == Ok([])
  {
  }

  /** When the first listed id resolves, the path begins with that line's full resolved path. */
  lemma SeedPrefix<C>(ids: seq<string>, lines: map<string, Line<C>>)
    requires |ids| > 0 && ids[0] in lines && Stitch(ids, lines).Ok?
    ensures |lines[ids[0]].path| <= |Stitch(ids, lines).value|
    ensures Stitch(ids, lines).value[..|lines[ids[0]].path|] == lines[ids[0]].path
  {
    ChaseFinal(ids, lines);
    var r := Chase(ids, lines);
    var seed := lines[ids[0]].path;
    assert r.path[..|seed|] == seed;
    var out := Close(r.path);
    assert out[..|r.path|] == r.path;
    assert out[..|seed|] == r.path[..|seed|];
  }

  /**
   * Each line id is marked used at most once, only ids that are listed and in
   * the line table are ever used, and every splice adds exactly one new id.
   */
  lemma UsedOnce<C>(ids: seq<string>, lines: map<string, Line<C>>)
    requires Chase(ids, lines).Chased?
    ensures var r := Chase(ids, lines);
      && SeedUsed(ids, lines) <= r.used
      && (forall id :: id in r.used ==> id in ids && id in lines)
      && |r.used| == |SeedUsed(ids, lines)| + |r.splices|
      && (forall i :: 0 <= i < |r.splices| ==> r.splices[i].id in r.used && r.splices[i].id !in SeedUsed(ids, lines))
      && (forall i, j :: 0 <= i < j < |r.splices| ==> r.splices[i].id != r.splices[j].id)
  {
    ChaseFinal(ids, lines);
  }

  /**
   * Length accounting: before closure the path is as long as the seed plus,
   * for each spliced line, its length minus one; closure adds at most one point.
   */
  lemma SpliceLengths<C>(ids: seq<string>, lines: map<string, Line<C>>)
    requires Chase(ids, lines).Chased?
    ensures var r := Chase(ids, lines);
      && |r.path| == |SeedPath(ids, lines)| + AddedLength(r.splices)
      && Stitch(ids, lines).Ok?
      && |r.path| <= |Stitch(ids, lines).value| <= |r.path| + 1
  {
    ChaseFinal(ids, lines);
  }

  /**
   * The splices are the table's lines, laid end to end: the first starts at the
   * seed's last point, each later one at the point where the one before it
   * ended, and the path before closure ends where the last splice ends.
   */
  lemma SplicesJoined<C>(ids: seq<string>, lines: map<string, Line<C>>)
    requires Chase(ids, lines).Chased? && SeedPath(ids, lines) != []
    ensures var r := Chase(ids, lines);
      && WellSpliced(ids, lines, r.splices)
      && r.path == SeedPath(ids, lines) + Pieces(r.splices)
      && Joined(Last(SeedPath(ids, lines)), r.splices)
      && Last(r.path) == TailAfter(Last(SeedPath(ids, lines)), r.splices)
  {
    ChaseFinal(ids, lines);
  }

  /**
   * A broken chain: when no unused listed line touches the tail, the chase
   * stops with the partial path built so far, and the builder returns that
   * path closed.
   */
  lemma BrokenChainKept<C>(ids: seq<string>, lines: map<string, Line<C>>)
    requires Chase(ids, lines).Chased? && Chase(ids, lines).stop == NoContinuation
    ensures var r := Chase(ids, lines);
      && r.path != []
      && |r.used| < |ids|
      && (forall j :: 0 <= j < |ids| ==> Passes(ids, lines, r.used, Last(r.path), j))
      && Stitch(ids, lines) == Ok(Close(r.path))
      && Stitch(ids, lines).value[..|r.path|] == r.path
  {
    ChaseStops(ids, lines, SeedUsed(ids, lines), SeedPath(ids, lines), []);
  }

  /**
   * The builder raises only on an unused listed line of the table whose path
   * is empty, so when every listed line in the table has a non-empty path the
   * builder always produces a path.
   */
  lemma CrashOnlyOnEmptyLine<C>(ids: seq<string>, lines: map<string, Line<C>>)
    ensures Stitch(ids, lines).EmptyLinePath? ==>
      var id := Stitch(ids, lines).lineId;
      id in ids && id in lines && |lines[id].path| == 0
    ensures (forall i :: 0 <= i < |ids| && ids[i] in lines ==> |lines[ids[i]].path| > 0) ==>
      Stitch(ids, lines).Ok?
  {
    ChaseStops(ids, lines, SeedUsed(ids, lines), SeedPath(ids, lines), []);
  }

  /** The resolvable ids of a list with one more id. */
  lemma ResolvableSnoc<C>(ids: seq<string>, x: string, lines: map<string, Line<C>>)
    ensures Resolvable(ids + [x], lines) == Resolvable(ids, lines) + (if x in lines then {x} else {})
  {
    var next := ids + [x];
    forall id | id in Resolvable(next, lines)
      ensures id in Resolvable(ids, lines) + (if x in lines then {x} else {})
    {
      var i :| 0 <= i < |next| && next[i] in lines && next[i] == id;
      if i < |ids| {
        assert ids[i] == id;
      }
    }
    forall id | id in Resolvable(ids, lines)
      ensures id in Resolvable(next, lines)
    {
      var i :| 0 <= i < |ids| && ids[i] in lines && ids[i] == id;
      assert next[i] == id;
    }
    if x in lines {
      assert next[|ids|] == x;
    }
  }

  /**
   * There are at most as many distinct resolvable ids as listed ids, and
   * strictly fewer when some listed id is missing from the table or some id
   * is listed twice.
   */
  lemma {:induction false} ResolvableSize<C>(ids: seq<string>, lines: map<string, Line<C>>)
    ensures |Resolvable(ids, lines)| <= |ids|
    ensures (exists j :: 0 <= j < |ids| && ids[j] !in lines) ==> |Resolvable(ids, lines)| < |ids|
    ensures (exists i, j :: 0 <= i < j < |ids| && ids[i] == ids[j]) ==> |Resolvable(ids, lines)| < |ids|
    decreases |ids|
  {
    if ids != [] {
      var n := |ids| - 1;
      var front, x := ids[..n], ids[n];
      assert ids == front + [x];
      ResolvableSnoc(front, x, lines);
      ResolvableSize(front, lines);
      if exists j :: 0 <= j < |ids| && ids[j] !in lines {
        var j :| 0 <= j < |ids| && ids[j] !in lines;
        if j < n {
          assert front[j] !in lines;
        }
      }
      if exists i, j :: 0 <= i < j < |ids| && ids[i] == ids[j] {
        var i, j :| 0 <= i < j < |ids| && ids[i] == ids[j];
        if j < n {
          assert front[i] == front[j];
        } else if x in lines {
          assert front[i] in lines;
          assert x in Resolvable(front, lines);
        }
      }
    }
  }

  /** A subset is no larger than its superset. */
  lemma SubsetSize<T>(a: set<T>, b: set<T>)
    requires a <= b
    ensures |a| <= |b|
  {
    assert b == a + (b - a);
  }

  /**
   * Listed ids that are not in the line table are never marked used. So when
   * any listed id is unresolved, or some id is listed twice, the used set can
   * never grow as large as the list: the chase ends only by finding no
   * continuation (or with an empty path, when the seed is unresolved).
   */
  lemma UnresolvedForcesBreak<C>(ids: seq<string>, lines: map<string, Line<C>>)
    requires Chase(ids, lines).Chased?
    requires || (exists j :: 0 <= j < |ids| && ids[j] !in lines)
             || (exists i, j :: 0 <= i < j < |ids| && ids[i] == ids[j])
    ensures forall j :: 0 <= j < |ids| && ids[j] !in lines ==> ids[j] !in Chase(ids, lines).used
    ensures Chase(ids, lines).stop != AllUsed
    ensures Chase(ids, lines).path != [] ==> Chase(ids, lines).stop == NoContinuation
  {
    ChaseFinal(ids, lines);
    ChaseStops(ids, lines, SeedUsed(ids, lines), SeedPath(ids, lines), []);
    ResolvableSize(ids, lines);
    var r := Chase(ids, lines);
    var res := Resolvable(ids, lines);
    assert r.used <= res;
    SubsetSize(r.used, res);
    assert |res| < |ids|;
  }

  /**
   * A path the chase leaves already closed (a closed line, or a loop that
   * returns to its start) gets no extra copy of its first point.
   */
  lemma NoExtraClosure<C>(ids: seq<string>, lines: map<string, Line<C>>)
    requires Chase(ids, lines).Chased?
    requires Chase(ids, lines).path != [] && Chase(ids, lines).path[0] == Last(Chase(ids, lines).path)
    ensures Stitch(ids, lines) == Ok(Chase(ids, lines).path)
  {
  }

  // ----- Cycle completeness -----

  /** The index after `m` around a cycle of `k` vertices. */
  function Succ(m: nat, k: nat): nat
  {
    if m + 1 < k then m + 1 else 0
  }

  /** The path runs between `a` and `b`, in one direction or the other. */
  ghost predicate Joins<C>(p: seq<C>, a: C, b: C)
  {
    |p| > 0 && ((p[0] == a && Last(p) == b) || (p[0] == b && Last(p) == a))
  }

  /** Every listed line the table has holds exactly two points, as a roof edge does. */
  ghost predicate TwoPointLines<C>(ids: seq<string>, lines: map<string, Line<C>>)
  {
    forall i :: 0 <= i < |ids| && ids[i] in lines ==> |lines[ids[i]].path| == 2
  }

  /**
   * The way a cycle's line `cyc[m]` is spliced on arriving at vertex `v[m]`:
   * forwards when it starts there, reversed otherwise.
   */
  ghost function CycleSplice<C>(lines: map<string, Line<C>>, cyc: seq<string>, v: seq<C>, m: nat): Splice<C>
    requires m < |cyc| && m < |v|
  {
    var line := if cyc[m] in lines then lines[cyc[m]].path else [];
    Splice(cyc[m], if |line| > 0 && line[0] == v[m] then Forward else Reversed, line)
  }

  /** The splices of the cycle's lines from `cyc[from]` on, in cycle order. */
  ghost function CycleSplices<C>(lines: map<string, Line<C>>, cyc: seq<string>, v: seq<C>, from: nat): (r: seq<Splice<C>>)
    requires |v| == |cyc| && from <= |cyc|
    ensures |r| == |cyc| - from
    ensures forall i :: 0 <= i < |r| ==> r[i] == CycleSplice(lines, cyc, v, from + i)
    decreases |cyc| - from
  {
    if from == |cyc| then [] else [CycleSplice(lines, cyc, v, from)] + CycleSplices(lines, cyc, v, from + 1)
  }

  /** The vertices a two-point-line cycle has visited after laying `j + 1` lines. */
  ghost function Walked<C>(v: seq<C>, j: nat): seq<C>
    requires j < |v|
  {
    if j + 1 < |v| then v[..j + 2] else v + [v[0]]
  }

  /**
   * The listed lines form a simple cycle: `cyc` arranges the listed ids (each
   * exactly once, the first listed id first) so that line `cyc[m]` joins
   * vertex `v[m]` to the next vertex around, the vertices are pairwise
   * distinct, and the first line is laid forwards from `v[0]`.
   */
  ghost predicate SimpleCycle<C>(ids: seq<string>, lines: map<string, Line<C>>, cyc: seq<string>, v: seq<C>)
  {
    && |ids| > 0 && |cyc| == |ids| && |v| == |ids|
    && (forall i :: 0 <= i < |ids| ==> ids[i] in cyc)
    && (forall m, n :: 0 <= m < n < |cyc| ==> cyc[m] != cyc[n])
    && (forall m, n :: 0 <= m < n < |v| ==> v[m] != v[n])
    && (forall m :: 0 <= m < |cyc| ==>
          cyc[m] in ids && cyc[m] in lines && Joins(lines[cyc[m]].path, v[m], v[Succ(m, |v|)]))
    && cyc[0] == ids[0] && lines[cyc[0]].path[0] == v[0]
  }

  /**
   * On a simple cycle, when the lines up to `cyc[j]` are used and the tail is
   * the next vertex, the scan picks `cyc[j + 1]`: it is the only unused line
   * touching the tail.
   */
  lemma CycleScan<C>(ids: seq<string>, lines: map<string, Line<C>>, cyc: seq<string>, v: seq<C>,
                     j: nat, used: set<string>)
    requires SimpleCycle(ids, lines, cyc, v) && j + 1 < |ids|
    requires forall m :: 0 <= m < |cyc| ==> (cyc[m] in used <==> m <= j)
    ensures Scan(ids, lines, used, v[j + 1], 0).Match?
    ensures ids[Scan(ids, lines, used, v[j + 1], 0).at] == cyc[j + 1]
  {
    var k := |v|;
    var tail := v[j + 1];
    var i :| 0 <= i < |ids| && ids[i] == cyc[j + 1];
    assert Joins(lines[cyc[j + 1]].path, v[j + 1], v[Succ(j + 1, k)]);
    assert !Passes(ids, lines, used, tail, i);
    forall n | 0 <= n < |ids|
      ensures ids[n] in lines && |lines[ids[n]].path| > 0
    {
      var m :| 0 <= m < |cyc| && cyc[m] == ids[n];
    }
    var r := Scan(ids, lines, used, tail, 0);
    assert !r.NoMatch? && !r.EmptyLine?;
    var m :| 0 <= m < |cyc| && cyc[m] == ids[r.at];
    assert m > j;
    assert Joins(lines[cyc[m]].path, v[m], v[Succ(m, k)]);
    OnlyNextTouches(v, j, m);
  }

  /** With distinct vertices, the only edge after `j` that meets vertex `v[j + 1]` is edge `j + 1`. */
  lemma OnlyNextTouches<C>(v: seq<C>, j: nat, m: nat)
    requires forall a, b :: 0 <= a < b < |v| ==> v[a] != v[b]
    requires j < m < |v| && j + 1 < |v|
    requires v[m] == v[j + 1] || v[Succ(m, |v|)] == v[j + 1]
    ensures m == j + 1
  {
  }

  /**
   * On a simple cycle, the line the scan picks at vertex `v[j + 1]` is spliced
   * as the cycle runs: it enters at `v[j + 1]` and exits at the next vertex.
   */
  lemma CycleNext<C>(ids: seq<string>, lines: map<string, Line<C>>, cyc: seq<string>, v: seq<C>,
                     j: nat, used: set<string>)
    requires SimpleCycle(ids, lines, cyc, v) && j + 1 < |ids|
    requires forall m :: 0 <= m < |cyc| ==> (cyc[m] in used <==> m <= j)
    ensures var r := Scan(ids, lines, used, v[j + 1], 0);
      r.Match? && Splice(ids[r.at], r.dir, lines[ids[r.at]].path) == CycleSplice(lines, cyc, v, j + 1)
    ensures var s := CycleSplice(lines, cyc, v, j + 1);
      |s.line| > 0 && Entry(s) == v[j + 1] && Exit(s) == v[Succ(j + 1, |v|)]
  {
    CycleScan(ids, lines, cyc, v, j, used);
    assert Joins(lines[cyc[j + 1]].path, v[j + 1], v[Succ(j + 1, |v|)]);
    assert v[j + 1] != v[Succ(j + 1, |v|)];
  }

  /** A two-point line adds exactly its exit point. */
  lemma TwoPointPiece<C>(s: Splice<C>)
    requires |s.line| == 2
    ensures Piece(s.line, s.dir) == [Exit(s)]
  {
  }

  /** A two-point-line cycle walk grows by the next vertex. */
  lemma WalkedStep<C>(v: seq<C>, j: nat)
    requires j + 1 < |v|
    ensures Walked(v, j) + [v[Succ(j + 1, |v|)]] == Walked(v, j + 1)
  {
    if j + 2 < |v| {
      assert v[..j + 3] == v[..j + 2] + [v[j + 2]];
    } else {
      assert v[..j + 2] == v;
    }
  }

  /**
   * On a simple cycle, one step of a chase that has used `cyc[0..j]` and
   * stands at `v[j + 1]`: it splices `cyc[j + 1]` as the cycle runs and moves
   * to the vertex after it.
   */
  lemma CycleStep<C>(ids: seq<string>, lines: map<string, Line<C>>, cyc: seq<string>, v: seq<C>,
                     j: nat, used: set<string>, path: seq<C>, splices: seq<Splice<C>>)
    returns (nextUsed: set<string>, next: seq<C>, nextSplices: seq<Splice<C>>)
    requires SimpleCycle(ids, lines, cyc, v) && j + 1 < |ids|
    requires (forall m :: 0 <= m < |cyc| ==> (cyc[m] in used <==> m <= j)) && |used| == j + 1
    requires |path| > 0 && path[0] == v[0] && Last(path) == v[Succ(j, |v|)]
    ensures ChaseFrom(ids, lines, used, path, splices) == ChaseFrom(ids, lines, nextUsed, next, nextSplices)
    ensures (forall m :: 0 <= m < |cyc| ==> (cyc[m] in nextUsed <==> m <= j + 1)) && |nextUsed| == j + 2
    ensures |next| > 0 && next[0] == v[0] && Last(next) == v[Succ(j + 1, |v|)]
    ensures nextSplices == splices + [CycleSplice(lines, cyc, v, j + 1)]
    ensures TwoPointLines(ids, lines) ==> next == path + [v[Succ(j + 1, |v|)]]
  {
    CycleNext(ids, lines, cyc, v, j, used);
    var s := CycleSplice(lines, cyc, v, j + 1);
    var r := Scan(ids, lines, used, Last(path), 0);
    ChaseStep(ids, lines, used, path, splices, r.at, r.dir);
    SpliceTail(path, s);
    next := path + Piece(s.line, s.dir);
    assert next[0] == v[0];
    nextUsed := used + {cyc[j + 1]};
    nextSplices := splices + [s];
    if TwoPointLines(ids, lines) {
      var i :| 0 <= i < |ids| && ids[i] == cyc[j + 1];
      TwoPointPiece(s);
    }
    CycleUsedStep(cyc, j, used);
  }

  /** Using the next line of a cycle extends the used prefix by one. */
  lemma CycleUsedStep(cyc: seq<string>, j: nat, used: set<string>)
    requires j + 1 < |cyc| && forall m, n :: 0 <= m < n < |cyc| ==> cyc[m] != cyc[n]
    requires (forall m :: 0 <= m < |cyc| ==> (cyc[m] in used <==> m <= j)) && |used| == j + 1
    ensures forall m :: 0 <= m < |cyc| ==> (cyc[m] in used + {cyc[j + 1]} <==> m <= j + 1)
    ensures |used + {cyc[j + 1]}| == j + 2
  {
    forall m | 0 <= m < |cyc|
      ensures cyc[m] in used + {cyc[j + 1]} <==> m <= j + 1
    {
      if m != j + 1 {
        assert cyc[m] != cyc[j + 1];
      }
    }
  }

  /**
   * On a simple cycle, the seed is the first line laid forwards from `v[0]`,
   * with only `cyc[0]` used; for two-point lines it is the first step of the
   * walk.
   */
  lemma CycleSeed<C>(ids: seq<string>, lines: map<string, Line<C>>, cyc: seq<string>, v: seq<C>)
    requires SimpleCycle(ids, lines, cyc, v)
    ensures Chase(ids, lines) == ChaseFrom(ids, lines, {ids[0]}, lines[ids[0]].path, [])
    ensures (forall m :: 0 <= m < |cyc| ==> (cyc[m] in {ids[0]} <==> m <= 0)) && |{ids[0]}| == 1
    ensures var seed := lines[ids[0]].path;
      |seed| > 0 && seed[0] == v[0] && Last(seed) == v[Succ(0, |v|)]
    ensures TwoPointLines(ids, lines) ==> lines[ids[0]].path == Walked(v, 0)
  {
    var seed := lines[ids[0]].path;
    assert Joins(seed, v[0], v[Succ(0, |v|)]);
    forall m | 0 <= m < |cyc|
      ensures cyc[m] in {ids[0]} <==> m <= 0
    {
      if m != 0 {
        assert cyc[m] != cyc[0];
      }
    }
    if TwoPointLines(ids, lines) {
      assert |seed| == 2;
      if 1 < |v| {
        assert seed == v[..2];
      } else {
        assert seed == v + [v[0]];
      }
    }
  }

  /**
   * On a simple cycle, a chase that has used `cyc[0..j]` and stands at vertex
   * `v[j + 1]` uses every remaining line, one splice each, and stops with all
   * lines used at `v[0]`.
   */
  lemma {:induction false} CycleChaseFrom<C>(ids: seq<string>, lines: map<string, Line<C>>, cyc: seq<string>,
                                             v: seq<C>, j: nat, used: set<string>, path: seq<C>,
                                             splices: seq<Splice<C>>)
    requires SimpleCycle(ids, lines, cyc, v) && j < |ids|
    requires (forall m :: 0 <= m < |cyc| ==> (cyc[m] in used <==> m <= j)) && |used| == j + 1
    requires |path| > 0 && path[0] == v[0] && Last(path) == v[Succ(j, |v|)]
    ensures var r := ChaseFrom(ids, lines, used, path, splices);
      && r.Chased? && r.stop == AllUsed
      && (forall m :: 0 <= m < |cyc| ==> cyc[m] in r.used)
      && |r.splices| == |splices| + |ids| - 1 - j
      && r.path != [] && r.path[0] == v[0] && Last(r.path) == v[0]
    decreases |ids| - j
  {
    if j + 1 == |ids| {
      assert ChaseFrom(ids, lines, used, path, splices) == Chased(path, splices, used, AllUsed);
    } else {
      var nextUsed, next, nextSplices := CycleStep(ids, lines, cyc, v, j, used, path, splices);
      CycleChaseFrom(ids, lines, cyc, v, j + 1, nextUsed, next, nextSplices);
    }
  }

  /**
   * Cycle completeness: when the listed lines form a simple cycle (in any
   * listed order, the first one laid forwards), the builder stitches every
   * listed line exactly once, stops because all of them are used, and the
   * loop closes on itself, so closure adds no point.
   */
  lemma CycleCompleteness<C>(ids: seq<string>, lines: map<string, Line<C>>, cyc: seq<string>, v: seq<C>)
    requires SimpleCycle(ids, lines, cyc, v)
    ensures Chase(ids, lines).Chased? && Chase(ids, lines).stop == AllUsed
    ensures forall i :: 0 <= i < |ids| ==> ids[i] in Chase(ids, lines).used
    ensures |Chase(ids, lines).splices| == |ids| - 1
    ensures Chase(ids, lines).path != [] && Chase(ids, lines).path[0] == Last(Chase(ids, lines).path)
    ensures Stitch(ids, lines) == Ok(Chase(ids, lines).path)
  {
    CycleSeed(ids, lines, cyc, v);
    CycleChaseFrom(ids, lines, cyc, v, 0, {ids[0]}, lines[ids[0]].path, []);
    var r := Chase(ids, lines);
    forall i | 0 <= i < |ids|
      ensures ids[i] in r.used
    {
      var m :| 0 <= m < |cyc| && cyc[m] == ids[i];
    }
  }

  /**
   * On a simple cycle, a chase that has used `cyc[0..j]` and stands at vertex
   * `v[j + 1]` splices the remaining lines in cycle order; with two-point
   * lines it visits the remaining vertices in turn and ends back at `v[0]`.
   */
  lemma {:induction false} CycleOrderFrom<C>(ids: seq<string>, lines: map<string, Line<C>>, cyc: seq<string>,
                                             v: seq<C>, j: nat, used: set<string>, path: seq<C>,
                                             splices: seq<Splice<C>>)
    requires SimpleCycle(ids, lines, cyc, v) && j < |ids|
    requires (forall m :: 0 <= m < |cyc| ==> (cyc[m] in used <==> m <= j)) && |used| == j + 1
    requires |path| > 0 && path[0] == v[0] && Last(path) == v[Succ(j, |v|)]
    ensures var r := ChaseFrom(ids, lines, used, path, splices);
      && r.Chased?
      && r.splices == splices + CycleSplices(lines, cyc, v, j + 1)
      && (TwoPointLines(ids, lines) && path == Walked(v, j) ==> r.path == v + [v[0]])
    decreases |ids| - j
  {
    if j + 1 == |ids| {
      assert ChaseFrom(ids, lines, used, path, splices) == Chased(path, splices, used, AllUsed);
      assert splices + CycleSplices(lines, cyc, v, j + 1) == splices + [];
    } else {
      var nextUsed, next, nextSplices := CycleStep(ids, lines, cyc, v, j, used, path, splices);
      CycleOrderFrom(ids, lines, cyc, v, j + 1, nextUsed, next, nextSplices);
      var rest := CycleSplices(lines, cyc, v, j + 2);
      assert CycleSplices(lines, cyc, v, j + 1) == [CycleSplice(lines, cyc, v, j + 1)] + rest;
      Associative(splices, [CycleSplice(lines, cyc, v, j + 1)], rest);
      if TwoPointLines(ids, lines) && path == Walked(v, j) {
        WalkedStep(v, j);
      }
    }
  }

  /**
   * Cycle order: on a simple cycle the builder splices the lines in cycle
   * order after the first, each laid in the direction the cycle runs; when
   * every line is a two-point edge, the polygon is the cycle's vertices, each
   * once, followed by the first again.
   */
  lemma CycleOrder<C>(ids: seq<string>, lines: map<string, Line<C>>, cyc: seq<string>, v: seq<C>)
    requires SimpleCycle(ids, lines, cyc, v)
    ensures Chase(ids, lines).Chased?
    ensures Chase(ids, lines).splices == CycleSplices(lines, cyc, v, 1)
    ensures forall m :: 0 <= m < |ids| - 1 ==> Chase(ids, lines).splices[m].id == cyc[m + 1]
    ensures TwoPointLines(ids, lines) ==> Stitch(ids, lines) == Ok(v + [v[0]])
  {
    CycleSeed(ids, lines, cyc, v);
    CycleOrderFrom(ids, lines, cyc, v, 0, {ids[0]}, lines[ids[0]].path, []);
    assert [] + CycleSplices(lines, cyc, v, 1) == CycleSplices(lines, cyc, v, 1);
    CycleSpliceIds(lines, cyc, v);
    CycleCompleteness(ids, lines, cyc, v);
  }

  /** The cycle's splices after the first line name the cycle's lines in turn. */
  lemma CycleSpliceIds<C>(lines: map<string, Line<C>>, cyc: seq<string>, v: seq<C>)
    requires |v| == |cyc| && |cyc| > 0
    ensures forall m :: 0 <= m < |cyc| - 1 ==> CycleSplices(lines, cyc, v, 1)[m].id == cyc[m + 1]
  {
  }

  /**
   * Listing independence: two listings of the same simple cycle that start
   * with the same line give the same polygon, whatever order the other lines
   * are listed in.
   */
  lemma CycleListingIndependent<C>(ids1: seq<string>, ids2: seq<string>, lines: map<string, Line<C>>,
                                   cyc: seq<string>, v: seq<C>)
    requires SimpleCycle(ids1, lines, cyc, v) && SimpleCycle(ids2, lines, cyc, v)
    ensures Stitch(ids1, lines) == Stitch(ids2, lines)
  {
    CycleOrder(ids1, lines, cyc, v);
    CycleOrder(ids2, lines, cyc, v);
    CycleCompleteness(ids1, lines, cyc, v);
    CycleCompleteness(ids2, lines, cyc, v);
    SplicesJoined(ids1, lines);
    SplicesJoined(ids2, lines);
    assert SeedPath(ids1, lines) == SeedPath(ids2, lines);
  }

  /** A line with the given path and blank metadata. */
  function Edge(path: seq<(int, int)>): Line<(int, int)>
  {
    Line(path, "", 0.0, "", [], "", "")
  }

  // The square PA=(0,0), PB=(10,0), PC=(10,10), PD=(0,10) with lines S1=PA-PB,
  // S2=PB-PC, S3=PD-PC and S4=PA-PD listed as [S1, S2, S3, S4].
  const PA: (int, int) := (0, 0)
  const PB: (int, int) := (10, 0)
  const PC: (int, int) := (10, 10)
  const PD: (int, int) := (0, 10)
  const SquareIds: seq<string> := ["S1", "S2", "S3", "S4"]

  function SquareLines(): map<string, Line<(int, int)>>
  {
    map["S1" := Edge([PA, PB]), "S2" := Edge([PB, PC]), "S3" := Edge([PD, PC]), "S4" := Edge([PA, PD])]
  }

  /** A listing that starts S1, S2, S3, as both the full and the open square do. */
  ghost predicate StartsSquare(ids: seq<string>)
  {
    |ids| >= 3 && ids[0] == "S1" && ids[1] == "S2" && ids[2] == "S3"
  }

  /** The seed is S1, and the first scan splices S2 forwards from PB. */
  lemma SquareFirstSplice(ids: seq<string>)
    requires StartsSquare(ids)
    ensures Chase(ids, SquareLines())
         == ChaseFrom(ids, SquareLines(), {"S1", "S2"}, [PA, PB, PC], [Splice("S2", Forward, [PB, PC])])
  {
    var lines := SquareLines();
    var u1 := {"S1"};
    assert SeedUsed(ids, lines) == u1 && SeedPath(ids, lines) == [PA, PB];
    assert Scan(ids, lines, u1, PB, 1) == Match(1, Forward);
    assert Scan(ids, lines, u1, PB, 0) == Match(1, Forward);
    ChaseStep(ids, lines, u1, [PA, PB], [], 1, Forward);
    assert lines[ids[1]].path == [PB, PC];
    assert [PA, PB] + Piece([PB, PC], Forward) == [PA, PB, PC];
    assert u1 + {"S2"} == {"S1", "S2"};
    assert [] + [Splice("S2", Forward, [PB, PC])] == [Splice("S2", Forward, [PB, PC])];
  }

  /** From PC, S3 is the first unused line touching the tail, and it ends there: spliced reversed. */
  lemma SquareSecondSplice(ids: seq<string>)
    requires StartsSquare(ids)
    ensures ChaseFrom(ids, SquareLines(), {"S1", "S2"}, [PA, PB, PC], [Splice("S2", Forward, [PB, PC])])
         == ChaseFrom(ids, SquareLines(), {"S1", "S2", "S3"}, [PA, PB, PC, PD],
                      [Splice("S2", Forward, [PB, PC]), Splice("S3", Reversed, [PD, PC])])
  {
    var lines := SquareLines();
    var u2: set<string> := {"S1", "S2"};
    assert |u2| == 2;
    assert Scan(ids, lines, u2, PC, 2) == Match(2, Reversed);
    assert Scan(ids, lines, u2, PC, 1) == Match(2, Reversed);
    assert Scan(ids, lines, u2, PC, 0) == Match(2, Reversed);
    ChaseStep(ids, lines, u2, [PA, PB, PC], [Splice("S2", Forward, [PB, PC])], 2, Reversed);
    assert lines[ids[2]].path == [PD, PC];
    assert [PA, PB, PC] + Piece([PD, PC], Reversed) == [PA, PB, PC, PD];
    assert u2 + {"S3"} == {"S1", "S2", "S3"};
    assert [Splice("S2", Forward, [PB, PC])] + [Splice("S3", Reversed, [PD, PC])]
        == [Splice("S2", Forward, [PB, PC]), Splice("S3", Reversed, [PD, PC])];
  }

  /** From PD, S4 ends at the tail and is spliced reversed, bringing the path back to PA. */
  lemma SquareThirdSplice()
    ensures ChaseFrom(SquareIds, SquareLines(), {"S1", "S2", "S3"}, [PA, PB, PC, PD],
                      [Splice("S2", Forward, [PB, PC]), Splice("S3", Reversed, [PD, PC])])
         == ChaseFrom(SquareIds, SquareLines(), {"S1", "S2", "S3", "S4"}, [PA, PB, PC, PD, PA],
                      [Splice("S2", Forward, [PB, PC]), Splice("S3", Reversed, [PD, PC]), Splice("S4", Reversed, [PA, PD])])
  {
    var ids, lines := SquareIds, SquareLines();
    assert ids[0] == "S1" && ids[1] == "S2" && ids[2] == "S3" && ids[3] == "S4";
    var u3: set<string> := {"S1", "S2", "S3"};
    assert |{"S1", "S2"}| == 2;
    assert |u3| == 3;
    assert Scan(ids, lines, u3, PD, 3) == Match(3, Reversed);
    assert Scan(ids, lines, u3, PD, 2) == Match(3, Reversed);
    assert Scan(ids, lines, u3, PD, 1) == Match(3, Reversed);
    assert Scan(ids, lines, u3, PD, 0) == Match(3, Reversed);
    ChaseStep(ids, lines, u3, [PA, PB, PC, PD],
              [Splice("S2", Forward, [PB, PC]), Splice("S3", Reversed, [PD, PC])], 3, Reversed);
    assert lines[ids[3]].path == [PA, PD];
    assert [PA, PB, PC, PD] + Piece([PA, PD], Reversed) == [PA, PB, PC, PD, PA];
    assert u3 + {"S4"} == {"S1", "S2", "S3", "S4"};
    assert [Splice("S2", Forward, [PB, PC]), Splice("S3", Reversed, [PD, PC])] + [Splice("S4", Reversed, [PA, PD])]
        == [Splice("S2", Forward, [PB, PC]), Splice("S3", Reversed, [PD, PC]), Splice("S4", Reversed, [PA, PD])];
  }

  /** With all four lines used, the chase stops. */
  lemma SquareAllUsed()
    ensures |{"S1", "S2", "S3", "S4"}| == 4
  {
    assert |{"S1", "S2"}| == 2;
    assert |{"S1", "S2", "S3"}| == 3;
  }

  /**
   * On the square, S2 is spliced forwards, S3 and S4 reversed; the chase
   * stops with every line used, and since the loop comes back to PA by
   * itself, closure adds nothing.
   */
  lemma WorkedExample()
    ensures Chase(SquareIds, SquareLines()).Chased?
    ensures Chase(SquareIds, SquareLines()).path == [PA, PB, PC, PD, PA]
    ensures Chase(SquareIds, SquareLines()).stop == AllUsed
    ensures Chase(SquareIds, SquareLines()).splices
         == [Splice("S2", Forward, [PB, PC]), Splice("S3", Reversed, [PD, PC]), Splice("S4", Reversed, [PA, PD])]
    ensures Stitch(SquareIds, SquareLines()) == Ok([PA, PB, PC, PD, PA])
  {
    SquareFirstSplice(SquareIds);
    SquareSecondSplice(SquareIds);
    SquareThirdSplice();
    SquareAllUsed();
    var u4, p4 := {"S1", "S2", "S3", "S4"}, [PA, PB, PC, PD, PA];
    var s4 := [Splice("S2", Forward, [PB, PC]), Splice("S3", Reversed, [PD, PC]), Splice("S4", Reversed, [PA, PD])];
    assert ChaseFrom(SquareIds, SquareLines(), u4, p4, s4) == Chased(p4, s4, u4, AllUsed);
    assert Close(p4) == p4;
  }

  /** The square listed without S4: S2 and S3 are spliced, and then every listed line is used. */
  lemma OpenSquareChase()
    ensures Chase(["S1", "S2", "S3"], SquareLines())
         == Chased([PA, PB, PC, PD], [Splice("S2", Forward, [PB, PC]), Splice("S3", Reversed, [PD, PC])],
                   {"S1", "S2", "S3"}, AllUsed)
  {
    var ids := ["S1", "S2", "S3"];
    SquareFirstSplice(ids);
    SquareSecondSplice(ids);
    assert |{"S1", "S2"}| == 2;
    var u3 := {"S1", "S2", "S3"};
    assert |u3| == 3;
  }

  /**
   * With S4 left out of the listing, the chase still stops with every listed
   * line used rather than with no continuation, and closure supplies the
   * unlisted edge from PD back to PA.
   */
  lemma MissingEdgeClosed()
    ensures Chase(["S1", "S2", "S3"], SquareLines()).Chased?
    ensures Chase(["S1", "S2", "S3"], SquareLines()).stop == AllUsed
    ensures Chase(["S1", "S2", "S3"], SquareLines()).path == [PA, PB, PC, PD]
    ensures Stitch(["S1", "S2", "S3"], SquareLines()) == Ok([PA, PB, PC, PD, PA])
  {
    OpenSquareChase();
    var p3 := [PA, PB, PC, PD];
    assert p3[0] != Last(p3);
    assert Close(p3) == [PA, PB, PC, PD, PA];
  }
}
