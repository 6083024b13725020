/**
  The directory creation of D3L: `d3l_dop_create` copies the given path into a
  zero-filled buffer one character at a time and, whenever the copied prefix
  ends at a '/' or at the last character of the path, asks whether that
  directory exists and, if not, tries to create it. Every attempt is reported
  on the error channel, and the function returns 0 whatever happened.

  The file system is the set of names that exist (directories or any other
  entry: `access` with `F_OK` does not tell them apart) held by a `Host`
  object; the names `mkdir` is able to create (its parent exists, permissions
  allow it) are a set `creatable` the caller supplies.
*/
module DirOps {
  import opened CText

  /** What one checkpoint reports on the error channel. */
  datatype Outcome =
    | Created(dir: string)
    | AlreadyExists(dir: string)
    | CreateFailed(dir: string)

  /** The fixed head of every report `d3l_dop_create` writes. */
  const Head: string := "ERROR: d3l:: int d3l_dop_create(const char *) "

  /**
    The text of a report. The failure report does not name the directory, and
    no space separates the name from the text after it.
  */
  function Message(o: Outcome): (m: string)
    ensures Head <= m
    ensures o.CreateFailed? ==> m == Head + "Can't create dirent."
    ensures !o.CreateFailed? ==> Head + o.dir <= m
  {
    match o
    case CreateFailed(_) => Head + "Can't create dirent."
    case Created(d) => Head + d + "has been created."
    case AlreadyExists(d) => Head + d + "is already exist."
  }

  /**
    The buffer of `d3l_dop_create` after copying the first `k` characters of
    `path`: those characters followed by NULs up to the terminator's place.
  */
  lemma {:induction false} BufferHoldsPrefix(b: seq<char>, path: string, k: nat)
    requires NoNul(path) && 0 < k <= |path| && |b| == |path| + 1
    requires forall i :: 0 <= i < k ==> b[i] == path[i]
    requires forall i :: k <= i < |b| ==> b[i] == '\0'
    ensures CStr(b) == path[..k]
  {
    assert b[..k] == path[..k];
    CStrAt(b, k);
  }

  /** Position `pos` ends a checkpoint: it holds a '/' or it is the last character. */
  predicate IsCheckpoint(path: string, pos: nat)
  {
    pos < |path| && (path[pos] == '/' || pos == |path| - 1)
  }

  /**
    The directories `d3l_dop_create` visits while it copies the first `k`
    characters of `path`, in visiting order: the prefixes ending at a
    checkpoint below `k`, each including its '/'.
  */
  function Checkpoints(path: string, k: nat): seq<string>
    requires k <= |path|
    decreases k
  {
    if k == 0 then []
    else Checkpoints(path, k - 1) + (if IsCheckpoint(path, k - 1) then [path[..k]] else [])
  }

  /** `d` is a prefix of `path` that ends at a checkpoint. */
  predicate IsCheckpointDir(path: string, d: string)
  {
    0 < |d| <= |path| && d == path[..|d|] && IsCheckpoint(path, |d| - 1)
  }

  /** Every visited directory is a prefix of the path ending at a checkpoint below `k`. */
  lemma {:induction false} CheckpointsSound(path: string, k: nat)
    requires k <= |path|
    ensures forall i :: 0 <= i < |Checkpoints(path, k)| ==>
              IsCheckpointDir(path, Checkpoints(path, k)[i]) && |Checkpoints(path, k)[i]| <= k
    decreases k
  {
    if k > 0 {
      CheckpointsSound(path, k - 1);
      var c := Checkpoints(path, k - 1);
      var r := Checkpoints(path, k);
      if IsCheckpoint(path, k - 1) {
        var x := path[..k];
        assert r == c + [x];
        forall i | 0 <= i < |r|
          ensures IsCheckpointDir(path, r[i]) && |r[i]| <= k
        {
          if i < |c| {
            assert r[i] == c[i];
            assert IsCheckpointDir(path, c[i]);
          } else {
            assert r[i] == x;
            assert |x| == k;
            assert x == path[..|x|];
          }
        }
      } else {
        assert r == c + [];
        assert c + [] == c;
      }
    }
  }

  /** Every prefix ending at a checkpoint below `k` is visited. */
  lemma {:induction false} CheckpointsComplete(path: string, k: nat)
    requires k <= |path|
    ensures forall p :: 0 <= p < k && IsCheckpoint(path, p) ==> path[..p + 1] in Checkpoints(path, k)
    decreases k
  {
    if k > 0 {
      CheckpointsComplete(path, k - 1);
    }
  }

  /** The directories are visited shortest first. */
  lemma {:induction false} CheckpointsIncreasing(path: string, k: nat)
    requires k <= |path|
    ensures forall i, j :: 0 <= i < j < |Checkpoints(path, k)| ==>
              |Checkpoints(path, k)[i]| < |Checkpoints(path, k)[j]|
    decreases k
  {
    if k > 0 {
      CheckpointsIncreasing(path, k - 1);
      CheckpointsSound(path, k - 1);
      var c := Checkpoints(path, k - 1);
      var r := Checkpoints(path, k);
      if IsCheckpoint(path, k - 1) {
        var x := path[..k];
        assert r == c + [x];
        forall i, j | 0 <= i < j < |r|
          ensures |r[i]| < |r[j]|
        {
          assert r[i] == c[i];
          if j == |c| {
            assert r[j] == x;
          } else {
            assert r[j] == c[j];
          }
        }
      } else {
        assert r == c + [];
        assert c + [] == c;
      }
    }
  }

  /** The directories a whole path visits are exactly its prefixes ending at a checkpoint. */
  lemma {:induction false} CheckpointsExactly(path: string)
    ensures forall d :: d in Checkpoints(path, |path|) <==> IsCheckpointDir(path, d)
  {
    CheckpointsSound(path, |path|);
    CheckpointsComplete(path, |path|);
    forall d | IsCheckpointDir(path, d)
      ensures d in Checkpoints(path, |path|)
    {
      assert path[..(|d| - 1) + 1] == d;
    }
  }

  /** The number of '/' characters in `s`. */
  function Slashes(s: string): nat
    decreases |s|
  {
    if |s| == 0 then 0 else Slashes(s[..|s| - 1]) + (if s[|s| - 1] == '/' then 1 else 0)
  }

  /** Below the last character, there is one checkpoint per '/'. */
  lemma {:induction false} CheckpointsBelowLast(path: string, k: nat)
    requires k < |path|
    ensures |Checkpoints(path, k)| == Slashes(path[..k])
    decreases k
  {
    if k > 0 {
      CheckpointsBelowLast(path, k - 1);
      assert path[..k][..k - 1] == path[..k - 1];
    }
  }

  /**
    A non-empty path visits one directory per '/' before its last character,
    plus the whole path: a trailing '/' is not visited twice.
  */
  lemma {:induction false} CheckpointCount(path: string)
    requires |path| > 0
    ensures |Checkpoints(path, |path|)| == Slashes(path[..|path| - 1]) + 1
  {
    CheckpointsBelowLast(path, |path| - 1);
  }

  /** The last directory visited is the whole path; the empty path visits none. */
  lemma {:induction false} LastCheckpointIsPath(path: string)
    ensures |path| == 0 ==> Checkpoints(path, |path|) == []
    ensures |path| > 0 ==> var c := Checkpoints(path, |path|);
                           |c| > 0 && c[|c| - 1] == path
  {
    if |path| > 0 {
      assert path[..|path|] == path;
    }
  }

  /** Directories visited for a path with two separators, and for one ending in '/'. */
  lemma {:induction false} CheckpointsExample()
    ensures Checkpoints("abc/def/ghi", 11) == ["abc/", "abc/def/", "abc/def/ghi"]
    ensures Checkpoints("abc/", 4) == ["abc/"]
  {
    var p := "abc/def/ghi";
    assert Checkpoints(p, 3) == [] by {
      assert !IsCheckpoint(p, 0) && !IsCheckpoint(p, 1) && !IsCheckpoint(p, 2);
    }
    assert Checkpoints(p, 7) == ["abc/"] by {
      assert IsCheckpoint(p, 3) && p[..4] == "abc/";
      assert !IsCheckpoint(p, 4) && !IsCheckpoint(p, 5) && !IsCheckpoint(p, 6);
    }
    assert Checkpoints(p, 10) == ["abc/", "abc/def/"] by {
      assert IsCheckpoint(p, 7) && p[..8] == "abc/def/";
      assert !IsCheckpoint(p, 8) && !IsCheckpoint(p, 9);
    }
    assert IsCheckpoint(p, 10) && p[..11] == p;
    var q := "abc/";
    assert Checkpoints(q, 3) == [] by {
      assert !IsCheckpoint(q, 0) && !IsCheckpoint(q, 1) && !IsCheckpoint(q, 2);
    }
    assert IsCheckpoint(q, 3) && q[..4] == q;
  }

  /** What the existence check and `mkdir` report for one directory. */
  function Step(dirs: set<string>, d: string, creatable: set<string>): (o: Outcome)
    ensures o.dir == d
    ensures o.AlreadyExists? <==> d in dirs
    ensures d in After(dirs, o) <==> d in dirs || d in creatable
    ensures After(dirs, o) - {d} == dirs - {d}
  {
    if d in dirs then AlreadyExists(d) else if d in creatable then Created(d) else CreateFailed(d)
  }

  /** The file system after one outcome. */
  function After(dirs: set<string>, o: Outcome): set<string>
  {
    if o.Created? then dirs + {o.dir} else dirs
  }

  /** The file system and the reports after visiting some directories. */
  datatype Effect = Effect(dirs: set<string>, outcomes: seq<Outcome>)

  /** Visiting one more directory `d` after the effect `e`. */
  function Then(e: Effect, d: string, creatable: set<string>): Effect
  {
    var o := Step(e.dirs, d, creatable);
    Effect(After(e.dirs, o), e.outcomes + [o])
  }

  /** Visiting the directories `cps` in order, starting from the file system `dirs`. */
  function Run(dirs: set<string>, cps: seq<string>, creatable: set<string>): (r: Effect)
    ensures |r.outcomes| == |cps|
    ensures dirs <= r.dirs
    decreases |cps|
  {
    if |cps| == 0 then Effect(dirs, [])
    else Then(Run(dirs, cps[..|cps| - 1], creatable), cps[|cps| - 1], creatable)
  }

  /** There is one report per visited directory, naming it. */
  lemma {:induction false} RunNames(dirs: set<string>, cps: seq<string>, creatable: set<string>)
    ensures forall i :: 0 <= i < |cps| ==> Run(dirs, cps, creatable).outcomes[i].dir == cps[i]
    decreases |cps|
  {
    if |cps| > 0 {
      RunNames(dirs, cps[..|cps| - 1], creatable);
    }
  }

  /** Visiting one more directory is one more step after the others. */
  lemma {:induction false} RunSnoc(dirs: set<string>, cps: seq<string>, d: string, creatable: set<string>)
    ensures Run(dirs, cps + [d], creatable) == Then(Run(dirs, cps, creatable), d, creatable)
  {
    assert (cps + [d])[..|cps|] == cps;
  }

  /** Copying one more character of the path visits its prefix when that character ends a checkpoint. */
  lemma {:induction false} RunAdvance(dirs: set<string>, path: string, pos: nat, creatable: set<string>)
    requires pos < |path|
    ensures var e := Run(dirs, Checkpoints(path, pos), creatable);
            Run(dirs, Checkpoints(path, pos + 1), creatable) ==
              if IsCheckpoint(path, pos) then Then(e, path[..pos + 1], creatable) else e
  {
    if IsCheckpoint(path, pos) {
      assert Checkpoints(path, pos + 1) == Checkpoints(path, pos) + [path[..pos + 1]];
      RunSnoc(dirs, Checkpoints(path, pos), path[..pos + 1], creatable);
    } else {
      var c := Checkpoints(path, pos);
      assert Checkpoints(path, pos + 1) == c + [];
      assert c + [] == c;
    }
  }

  /** The directories afterwards are those before plus the visited ones `mkdir` can create. */
  lemma {:induction false} RunDirs(dirs: set<string>, cps: seq<string>, creatable: set<string>)
    ensures forall d :: d in Run(dirs, cps, creatable).dirs <==> d in dirs || (d in cps && d in creatable)
    decreases |cps|
  {
    if |cps| > 0 {
      var front := cps[..|cps| - 1];
      RunDirs(dirs, front, creatable);
      assert forall d :: d in cps <==> d in front || d == cps[|cps| - 1] by {
        assert cps == front + [cps[|cps| - 1]];
      }
    }
  }

  /** No name occurs twice. */
  predicate Distinct(cps: seq<string>)
  {
    forall i, j :: 0 <= i < j < |cps| ==> cps[i] != cps[j]
  }

  /**
    When no directory is visited twice, each report depends only on the file
    system before the call: existing directories are reported as existing,
    the others as created exactly when `mkdir` can create them.
  */
  lemma {:induction false} RunOutcomes(dirs: set<string>, cps: seq<string>, creatable: set<string>)
    requires Distinct(cps)
    ensures forall i :: 0 <= i < |cps| ==> Run(dirs, cps, creatable).outcomes[i] == Step(dirs, cps[i], creatable)
    decreases |cps|
  {
    if |cps| > 0 {
      var n := |cps| - 1;
      var front := cps[..n];
      var e := Run(dirs, front, creatable);
      assert Distinct(front);
      RunOutcomes(dirs, front, creatable);
      assert cps[n] in e.dirs <==> cps[n] in dirs by {
        RunDirs(dirs, front, creatable);
        assert cps[n] !in front;
      }
    }
  }

  /** A path's directories are all different, since they have different lengths. */
  lemma {:induction false} CheckpointsDistinct(path: string)
    ensures Distinct(Checkpoints(path, |path|))
  {
    CheckpointsIncreasing(path, |path|);
  }

  /**
    The effect of the first `k` iterations of the copying loop of
    `d3l_dop_create`, one character at a time.
  */
  function Walk(dirs: set<string>, path: string, k: nat, creatable: set<string>): Effect
    requires k <= |path|
    decreases k
  {
    if k == 0 then Effect(dirs, [])
    else
      var e := Walk(dirs, path, k - 1, creatable);
      if IsCheckpoint(path, k - 1) then Then(e, path[..k], creatable) else e
  }

  /** The character walk visits the checkpoints in order. */
  lemma {:induction false} WalkIsRun(dirs: set<string>, path: string, k: nat, creatable: set<string>)
    requires k <= |path|
    ensures Walk(dirs, path, k, creatable) == Run(dirs, Checkpoints(path, k), creatable)
    decreases k
  {
    if k > 0 {
      WalkIsRun(dirs, path, k - 1, creatable);
      RunAdvance(dirs, path, k - 1, creatable);
    }
  }

  /** What `d3l_dop_create` does to the file system `dirs` for the path `path`. */
  function CreateEffect(dirs: set<string>, path: string, creatable: set<string>): Effect
  {
    Walk(dirs, path, |path|, creatable)
  }

  /**
    The directories afterwards are those before plus the prefixes of the path
    ending at a checkpoint that `mkdir` can create. When no existing directory
    is in the way, each visited prefix is reported as existing if it existed
    before, as created if it did not and `mkdir` can create it, and as a
    failure otherwise.
  */
  lemma {:induction false} CreateEffectSpec(dirs: set<string>, path: string, creatable: set<string>)
    ensures CreateEffect(dirs, path, creatable) == Run(dirs, Checkpoints(path, |path|), creatable)
    ensures forall d :: d in CreateEffect(dirs, path, creatable).dirs <==>
              d in dirs || (IsCheckpointDir(path, d) && d in creatable)
    ensures var c := Checkpoints(path, |path|);
            forall i :: 0 <= i < |c| ==> CreateEffect(dirs, path, creatable).outcomes[i] == Step(dirs, c[i], creatable)
  {
    var c := Checkpoints(path, |path|);
    WalkIsRun(dirs, path, |path|, creatable);
    RunDirs(dirs, c, creatable);
    CheckpointsExactly(path);
    CheckpointsDistinct(path);
    RunOutcomes(dirs, c, creatable);
  }

  /**
    After a call in which every visited directory existed or could be made, a
    second call reports them all as existing and changes nothing.
  */
  lemma {:induction false} CreateTwice(dirs: set<string>, path: string, creatable: set<string>, creatable2: set<string>)
    requires forall d :: IsCheckpointDir(path, d) ==> d in creatable || d in dirs
    ensures var e := CreateEffect(dirs, path, creatable);
            var e2 := CreateEffect(e.dirs, path, creatable2);
            e2.dirs == e.dirs && forall i :: 0 <= i < |e2.outcomes| ==> e2.outcomes[i].AlreadyExists?
  {
    var c := Checkpoints(path, |path|);
    var e := CreateEffect(dirs, path, creatable);
    CreateEffectSpec(dirs, path, creatable);
    CreateEffectSpec(e.dirs, path, creatable2);
    CheckpointsSound(path, |path|);
  }

  /** The host's file system and error channel. */
  class Host {
    /** Every name that exists, whatever kind of entry it is. */
    var dirs: set<string>
    var log: seq<Outcome>

    constructor (existing: set<string>)
      ensures dirs == existing && log == []
    {
      dirs := existing;
      log := [];
    }

    /** `access(name, F_OK)`: 0 when the directory exists, negative otherwise. */
    method Access(name: string) returns (r: int)
      ensures r == if name in dirs then 0 else -1
    {
      r := if name in dirs then 0 else -1;
    }

    /** `mkdir(name, ...)`: fails on an existing name or on a name outside `creatable`. */
    method Mkdir(name: string, creatable: set<string>) returns (r: int)
      modifies this
      ensures name !in old(dirs) && name in creatable ==> r == 0 && dirs == old(dirs) + {name}
      ensures name in old(dirs) || name !in creatable ==> r == -1 && dirs == old(dirs)
      ensures log == old(log)
    {
      if name !in dirs && name in creatable {
        dirs := dirs + {name};
        r := 0;
      } else {
        r := -1;
      }
    }

    /**
      One checkpoint of `d3l_dop_create`: an absent directory is created if
      `mkdir` can, and the outcome is reported.
    */
    method Visit(name: string, creatable: set<string>)
      modifies this
      ensures var o := Step(old(dirs), name, creatable);
              dirs == After(old(dirs), o) && log == old(log) + [o]
    {
      var o: Outcome;
      var a := Access(name);
      if a < 0 {
        var m := Mkdir(name, creatable);
        if m < 0 {
          o := CreateFailed(name);
        } else {
          o := Created(name);
        }
      } else {
        o := AlreadyExists(name);
      }
      Report(o);
    }

    /** `d3l_sys_err`: appends one report to the log. The log file itself is not among the modelled names. */
    method Report(o: Outcome)
      modifies this
      ensures log == old(log) + [o] && dirs == old(dirs)
    {
      log := log + [o];
    }

    /** `d3l_dop_create(path)`. */
    method CreateAll(path: string, creatable: set<string>) returns (status: int)
      requires NoNul(path)
      modifies this
      ensures status == 0
      ensures var e := CreateEffect(old(dirs), path, creatable);
              dirs == e.dirs && log == old(log) + e.outcomes
    {
      var n := |path|;
      var sz := path + ['\0'];
      var dirname := new char[n + 1](_ => '\0');
      var pos := 0;
      ghost var dirs0, log0 := dirs, log;
      while sz[pos] != '\0'
        invariant 0 <= pos <= n
        invariant forall i :: 0 <= i < pos ==> dirname[i] == path[i]
        invariant forall i :: pos <= i <= n ==> dirname[i] == '\0'
        invariant var e := Walk(dirs0, path, pos, creatable);
                  dirs == e.dirs && log == log0 + e.outcomes
        decreases n - pos
      {
        dirname[pos] := sz[pos];
        if sz[pos] == '/' || n - 1 == pos {
          var name := CStr(dirname[..]);
          assert name == path[..pos + 1] by {
            BufferHoldsPrefix(dirname[..], path, pos + 1);
          }
          Visit(name, creatable);
        }
        pos := pos + 1;
      }
      assert pos == n;
      status := 0;
    }
  }
}
