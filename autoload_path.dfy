/**
  Splitting the ITK_AUTOLOAD_PATH value into directories (LoadDynamicFactories).

  The separator is the non-Windows one.  The loop as written does not split the value; see
  LoadPathStepAsWritten and the lemmas after it.  Components is the split the loop evidently
  intends, and it is the one discovery uses.
 */
module AutoloadPath {
  import opened Wrappers

  /** The character between two directories of the search path (the non-Windows build). */
  const ListSeparator: char := ':'

  /** std::string::size_type is taken to be 64 bits wide here, so its arithmetic wraps modulo this. */
  const SizeModulus: nat := 0x1_0000_0000_0000_0000

  /** std::string::npos: the largest size_type value. */
  const NPos: nat := SizeModulus - 1

  /** std::string::find(c, from): the first position at or after `from` holding `c`, or NPos.  A string is always shorter than NPos. */
  function FindChar(s: string, c: char, from: nat): (r: nat)
    requires |s| < NPos
    ensures r == NPos ==> forall j :: from <= j < |s| ==> s[j] != c
    ensures r != NPos ==> from <= r < |s| && s[r] == c && forall j :: from <= j < r ==> s[j] != c
    decreases |s| - from
  {
    if from >= |s| then NPos
    else if s[from] == c then from
    else FindChar(s, c, from + 1)
  }

  /** std::string::substr(pos, len): None stands for the out_of_range exception when `pos` is past the end. */
  function Substr(s: string, pos: nat, len: nat): (r: Option<string>)
    ensures r.None? <==> pos > |s|
    ensures r.Some? ==> |r.value| == (if len < |s| - pos then len else |s| - pos)
                        && forall i :: 0 <= i < |r.value| ==> r.value[i] == s[pos + i]
  {
    if pos > |s| then None else Some(s[pos..if pos + len < |s| then pos + len else |s|])
  }

  /** One pass of the loop: where it started, the end position it leaves behind, and the directory it loads. */
  datatype Step = Step(start: nat, end: nat, loaded: Option<string>)

  /**
    One pass of LoadDynamicFactories' loop as written, entered with end position `end`: the
    test after `find` is inverted, the end position is passed to `substr` as a length, and the
    final increment wraps modulo the size_type width.  The loop repeats while `start` is not
    NPos.
   */
  function LoadPathStepAsWritten(path: string, end: nat): (st: Step)
    requires |path| < NPos && end < SizeModulus
    ensures st.start == end && st.end < SizeModulus
  {
    var found := FindChar(path, ListSeparator, end);
    var stop := if found != NPos then |path| else found;
    Step(end, (stop + 1) % SizeModulus, Substr(path, end, stop))
  }

  /**
    A non-empty value with no separator makes the first pass load the whole value and hand the
    next pass the same state again, so the loop never ends.  (An empty value returns before the
    loop.)
   */
  lemma AsWrittenRepeatsForever(path: string)
    requires |path| < NPos && path != [] && ListSeparator !in path
    ensures LoadPathStepAsWritten(path, 0) == Step(0, 0, Some(path))
  {
    assert FindChar(path, ListSeparator, 0) == NPos;
    assert path[0..|path|] == path;
  }

  /**
    A value with a separator is loaded as one directory, separators included, and the second
    pass starts past the end of the value, where `substr` throws.
   */
  lemma AsWrittenLoadsWholeValue(path: string)
    requires |path| < NPos && ListSeparator in path
    ensures LoadPathStepAsWritten(path, 0) == Step(0, |path| + 1, Some(path))
    ensures LoadPathStepAsWritten(path, |path| + 1).loaded.None?
  {
    var i :| 0 <= i < |path| && path[i] == ListSeparator;
    assert FindChar(path, ListSeparator, 0) != NPos;
    assert path[0..|path|] == path;
  }

  /** The pieces of `s` between separators, in order; a value without a separator is one piece. */
  function Components(s: string): (cs: seq<string>)
    ensures |cs| >= 1
  {
    if s == [] then [[]]
    else
      var cs := Components(s[..|s| - 1]);
      if s[|s| - 1] == ListSeparator then cs + [[]]
      else cs[..|cs| - 1] + [cs[|cs| - 1] + [s[|s| - 1]]]
  }

  /** The pieces put back together with a separator between each two. */
  function Join(cs: seq<string>): string
    requires |cs| >= 1
  {
    if |cs| == 1 then cs[0] else Join(cs[..|cs| - 1]) + [ListSeparator] + cs[|cs| - 1]
  }

  /** The directories the loop is meant to hand to LoadLibrariesInPath; an unset or empty value gives none. */
  function SearchDirs(path: string): seq<string>
  {
    if path == [] then [] else Components(path)
  }

  lemma JoinExtendLast(cs: seq<string>, x: char)
    requires |cs| >= 1
    ensures Join(cs[..|cs| - 1] + [cs[|cs| - 1] + [x]]) == Join(cs) + [x]
  {
    var ds := cs[..|cs| - 1] + [cs[|cs| - 1] + [x]];
    if |cs| > 1 {
      assert ds[..|ds| - 1] == cs[..|cs| - 1];
    }
  }

  /** No piece holds a separator. */
  lemma {:induction false} ComponentsSeparatorFree(s: string)
    ensures forall k :: 0 <= k < |Components(s)| ==> ListSeparator !in Components(s)[k]
  {
    if s != [] && s[|s| - 1] != ListSeparator {
      var cs := Components(s[..|s| - 1]);
      ComponentsSeparatorFree(s[..|s| - 1]);
      forall k | 0 <= k < |Components(s)|
        ensures ListSeparator !in Components(s)[k]
      {
        if k < |cs| - 1 {
          assert Components(s)[k] == cs[k];
        }
      }
    } else if s != [] {
      ComponentsSeparatorFree(s[..|s| - 1]);
    }
  }

  /** Joining the pieces gives back the value. */
  lemma {:induction false} ComponentsJoin(s: string)
    ensures Join(Components(s)) == s
  {
    if s != [] {
      var front, x := s[..|s| - 1], s[|s| - 1];
      ComponentsJoin(front);
      var cs := Components(front);
      assert s == front + [x];
      if x == ListSeparator {
        assert (cs + [[]])[..|cs|] == cs;
      } else {
        JoinExtendLast(cs, x);
      }
    }
  }

  /** A piece without separators is split into itself. */
  lemma {:induction false} ComponentsOfPiece(b: string)
    requires ListSeparator !in b
    ensures Components(b) == [b]
  {
    if b != [] {
      ComponentsOfPiece(b[..|b| - 1]);
      assert b[..|b| - 1] + [b[|b| - 1]] == b;
    }
  }

  lemma {:induction false} ComponentsAfterSeparator(a: string, b: string)
    requires ListSeparator !in b
    ensures Components(a + [ListSeparator] + b) == Components(a) + [b]
  {
    var s := a + [ListSeparator] + b;
    if b == [] {
      assert s[..|s| - 1] == a;
    } else {
      var front := b[..|b| - 1];
      ComponentsAfterSeparator(a, front);
      assert s[..|s| - 1] == a + [ListSeparator] + front;
      assert front + [b[|b| - 1]] == b;
    }
  }

  /** Splitting a joined list of separator-free pieces gives the pieces back. */
  lemma {:induction false} JoinComponents(cs: seq<string>)
    requires |cs| >= 1
    requires forall k :: 0 <= k < |cs| ==> ListSeparator !in cs[k]
    ensures Components(Join(cs)) == cs
  {
    if |cs| == 1 {
      ComponentsOfPiece(cs[0]);
    } else {
      var front := cs[..|cs| - 1];
      JoinComponents(front);
      ComponentsAfterSeparator(Join(front), cs[|cs| - 1]);
      assert front + [cs[|cs| - 1]] == cs;
    }
  }
}
