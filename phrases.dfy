/** Phrase dictionaries and the path walk of `_getPhrase` (index.js:135-155),
    stated as functions on values. */
module Phrases {
  import opened Values

  /** A dictionary entry: a phrase string, or a nested dictionary. */
  datatype Tree = Leaf(s: string) | Branch(kids: map<string, Tree>)

  /** A locale's dictionary: the object a locale file exports. */
  type Dict = map<string, Tree>

  // ---------------------------------------------------------------------
  // String.prototype.split with a one-character separator, and its inverse
  // ---------------------------------------------------------------------

  predicate NoSep(w: string, c: char) {
    forall i :: 0 <= i < |w| ==> w[i] != c
  }

  /** `s.split(c)`: the maximal runs of `s` between occurrences of `c`,
      empty runs included, so there is always at least one piece. */
  function Split(s: string, c: char): (r: seq<string>)
    ensures |r| >= 1
    ensures forall j :: 0 <= j < |r| ==> NoSep(r[j], c)
    decreases |s|
  {
    if |s| == 0 then [""]
    else if s[0] == c then [""] + Split(s[1..], c)
    else
      var rest := Split(s[1..], c);
      [[s[0]] + rest[0]] + rest[1..]
  }

  /** `segs.join(c)`. */
  function Join(segs: seq<string>, c: char): string
    requires |segs| >= 1
    decreases |segs|
  {
    if |segs| == 1 then segs[0] else segs[0] + [c] + Join(segs[1..], c)
  }

  /** Joining the pieces of a split gives back the string. */
  lemma {:induction false} JoinSplit(s: string, c: char)
    ensures Join(Split(s, c), c) == s
    decreases |s|
  {
    if |s| == 0 {
    } else if s[0] == c {
      JoinSplit(s[1..], c);
      assert Split(s, c)[1..] == Split(s[1..], c);
    } else {
      JoinSplit(s[1..], c);
      var rest := Split(s[1..], c);
      var r := Split(s, c);
      if |rest| == 1 {
        assert r == [[s[0]] + rest[0]];
      } else {
        assert r[1..] == rest[1..];
        assert Join(r, c) == [s[0]] + rest[0] + [c] + Join(rest[1..], c);
        assert Join(rest, c) == rest[0] + [c] + Join(rest[1..], c);
      }
    }
  }

  /** Splitting a piece free of `c` that is followed by `c` and more text. */
  lemma {:induction false} SplitPiece(w: string, c: char, tail: string)
    requires NoSep(w, c)
    ensures Split(w + [c] + tail, c) == [w] + Split(tail, c)
    decreases |w|
  {
    if |w| == 0 {
      assert w + [c] + tail == [c] + tail;
      assert ([c] + tail)[1..] == tail;
    } else {
      var s := w + [c] + tail;
      assert s[0] == w[0];
      assert s[1..] == w[1..] + [c] + tail;
      SplitPiece(w[1..], c, tail);
      assert [w[0]] + w[1..] == w;
    }
  }

  /** A string free of `c` splits into itself alone. */
  lemma {:induction false} SplitNoSep(w: string, c: char)
    requires NoSep(w, c)
    ensures Split(w, c) == [w]
    decreases |w|
  {
    if |w| > 0 {
      SplitNoSep(w[1..], c);
      assert [w[0]] + w[1..] == w;
    }
  }

  /** Splitting a join of `c`-free pieces gives back the pieces. */
  lemma {:induction false} SplitJoin(segs: seq<string>, c: char)
    requires |segs| >= 1
    requires forall j :: 0 <= j < |segs| ==> NoSep(segs[j], c)
    ensures Split(Join(segs, c), c) == segs
    decreases |segs|
  {
    if |segs| == 1 {
      SplitNoSep(segs[0], c);
    } else {
      SplitJoin(segs[1..], c);
      SplitPiece(segs[0], c, Join(segs[1..], c));
      assert [segs[0]] + segs[1..] == segs;
    }
  }

  /** Appending `c` and a `c`-free suffix adds exactly one last piece;
      this is how `path + '.zero'` reaches the `zero` entry. */
  lemma {:induction false} SplitAppend(s: string, c: char, w: string)
    requires NoSep(w, c)
    ensures Split(s + [c] + w, c) == Split(s, c) + [w]
    decreases |s|
  {
    if |s| == 0 {
      assert s + [c] + w == [c] + w;
      assert ([c] + w)[1..] == w;
      SplitNoSep(w, c);
    } else {
      var t := s + [c] + w;
      assert t[0] == s[0];
      assert t[1..] == s[1..] + [c] + w;
      SplitAppend(s[1..], c, w);
      if s[0] != c {
        var rest := Split(s[1..], c);
        assert Split(t[1..], c) == rest + [w];
        assert (rest + [w])[0] == rest[0];
        assert (rest + [w])[1..] == rest[1..] + [w];
      }
    }
  }

  // ---------------------------------------------------------------------
  // The walk
  // ---------------------------------------------------------------------

  /** The `forEach` loop of `_getPhrase`: `obj` is the dictionary the next
      segment is looked up in, `str` the text returned so far, and `fb` the
      outcome of the fallback resolution when a missing segment triggers
      fallback (`None` when it does not). A phrase string sets `str` and
      leaves `obj` where it is; a nested dictionary becomes `obj`; a missing
      key sets `str` to the fallback text, or propagates the exception the
      fallback raised, or changes nothing. */
  function Walk(obj: Dict, segs: seq<string>, str: string, fb: Option<Result<string>>): Result<string>
    decreases |segs|
  {
    if segs == [] then Ok(str)
    else if segs[0] in obj then
      match obj[segs[0]]
      case Leaf(s) => Walk(obj, segs[1..], s, fb)
      case Branch(kids) => Walk(kids, segs[1..], str, fb)
    else
      match fb
      case None => Walk(obj, segs[1..], str, fb)
      case Some(Err(e)) => Err(e)
      case Some(Ok(d)) => Walk(obj, segs[1..], d, fb)
  }

  /** What the walk does at one segment. */
  datatype Step = Hit(s: string) | Descend | Miss

  /** The steps of the walk, one per segment. */
  function Steps(obj: Dict, segs: seq<string>): (r: seq<Step>)
    ensures |r| == |segs|
    decreases |segs|
  {
    if segs == [] then []
    else if segs[0] in obj then
      match obj[segs[0]]
      case Leaf(s) => [Hit(s)] + Steps(obj, segs[1..])
      case Branch(kids) => [Descend] + Steps(kids, segs[1..])
    else [Miss] + Steps(obj, segs[1..])
  }

  /** An independent reading of the walk's result: the text set by the
      LAST step that sets one (a phrase string, or a miss when fallback
      text `d` is available), else the initial text. */
  function Final(steps: seq<Step>, str: string, d: Option<string>): string
    decreases |steps|
  {
    if steps == [] then str
    else
      match steps[|steps| - 1]
      case Hit(s) => s
      case Miss => if d.Some? then d.value else Final(steps[..|steps| - 1], str, d)
      case Descend => Final(steps[..|steps| - 1], str, d)
  }

  /** The text after one step. */
  function After(x: Step, str: string, d: Option<string>): string {
    match x
    case Hit(s) => s
    case Miss => if d.Some? then d.value else str
    case Descend => str
  }

  lemma {:induction false} FinalCons(x: Step, rest: seq<Step>, str: string, d: Option<string>)
    ensures Final([x] + rest, str, d) == Final(rest, After(x, str, d), d)
    decreases |rest|
  {
    var all := [x] + rest;
    if rest == [] {
      assert all[..0] == [];
    } else {
      assert all[|all| - 1] == rest[|rest| - 1];
      assert all[..|all| - 1] == [x] + rest[..|rest| - 1];
      FinalCons(x, rest[..|rest| - 1], str, d);
    }
  }

  /** The fallback text a miss would install, if any. */
  function FallbackText(fb: Option<Result<string>>): Option<string> {
    if fb.Some? && fb.value.Ok? then Some(fb.value.value) else None
  }

  /** The walk fails exactly when fallback raised and some segment misses;
      otherwise it returns the text of the last setting step. */
  lemma {:induction false} WalkIsFinal(obj: Dict, segs: seq<string>, str: string, fb: Option<Result<string>>)
    ensures Walk(obj, segs, str, fb)
         == if fb.Some? && fb.value.Err? && Miss in Steps(obj, segs) then fb.value
            else Ok(Final(Steps(obj, segs), str, FallbackText(fb)))
    decreases |segs|
  {
    if segs != [] {
      var st := Steps(obj, segs);
      var d := FallbackText(fb);
      if segs[0] in obj {
        match obj[segs[0]]
        case Leaf(s) =>
          WalkIsFinal(obj, segs[1..], s, fb);
          FinalCons(Hit(s), Steps(obj, segs[1..]), str, d);
          assert Miss in st <==> Miss in Steps(obj, segs[1..]);
        case Branch(kids) =>
          WalkIsFinal(kids, segs[1..], str, fb);
          FinalCons(Descend, Steps(kids, segs[1..]), str, d);
          assert Miss in st <==> Miss in Steps(kids, segs[1..]);
      } else {
        assert Miss in st;
        FinalCons(Miss, Steps(obj, segs[1..]), str, d);
        WalkIsFinal(obj, segs[1..], After(Miss, str, d), fb);
      }
    }
  }

  /** The entry a path of segments addresses, descending only through
      nested dictionaries. */
  function Lookup(obj: Dict, segs: seq<string>): Option<Tree>
    requires |segs| >= 1
    decreases |segs|
  {
    if segs[0] !in obj then None
    else if |segs| == 1 then Some(obj[segs[0]])
    else
      match obj[segs[0]]
      case Leaf(_) => None
      case Branch(kids) => Lookup(kids, segs[1..])
  }

  /** Looking one segment further: the entry under `w` of the dictionary
      the shorter path addresses. */
  lemma {:induction false} LookupAppend(obj: Dict, segs: seq<string>, w: string)
    requires |segs| >= 1
    ensures Lookup(obj, segs + [w])
         == match Lookup(obj, segs)
            case Some(Branch(m)) => (if w in m then Some(m[w]) else None)
            case _ => None
    decreases |segs|
  {
    var longer := segs + [w];
    assert longer[0] == segs[0];
    if segs[0] in obj && |segs| == 1 {
      assert longer[1..] == [w];
    } else if segs[0] in obj {
      assert longer[1..] == segs[1..] + [w];
      if obj[segs[0]].Branch? {
        LookupAppend(obj[segs[0]].kids, segs[1..], w);
      }
    }
  }

  /** A path that descends through dictionaries onto a phrase string
      returns that string, whatever the fallback. */
  lemma {:induction false} WalkFindsLeaf(obj: Dict, segs: seq<string>, str: string, fb: Option<Result<string>>, s: string)
    requires |segs| >= 1 && Lookup(obj, segs) == Some(Leaf(s))
    ensures Walk(obj, segs, str, fb) == Ok(s)
    decreases |segs|
  {
    if |segs| == 1 {
      assert segs[1..] == [];
    } else {
      WalkFindsLeaf(obj[segs[0]].kids, segs[1..], str, fb, s);
    }
  }

  /** A path that addresses a nested dictionary returns the initial text
      unchanged, whatever the fallback. */
  lemma {:induction false} WalkStopsAtBranch(obj: Dict, segs: seq<string>, str: string, fb: Option<Result<string>>, m: Dict)
    requires |segs| >= 1 && Lookup(obj, segs) == Some(Branch(m))
    ensures Walk(obj, segs, str, fb) == Ok(str)
    decreases |segs|
  {
    if |segs| == 1 {
      assert segs[1..] == [];
    } else {
      WalkStopsAtBranch(obj[segs[0]].kids, segs[1..], str, fb, m);
    }
  }

  /** No step of the walk meets a phrase string. */
  predicate MeetsNoPhrase(steps: seq<Step>) {
    forall j :: 0 <= j < |steps| ==> !steps[j].Hit?
  }

  /** Without fallback, a walk that meets no phrase string returns the
      initial text. */
  lemma {:induction false} WalkWithoutLeaf(obj: Dict, segs: seq<string>, str: string)
    requires MeetsNoPhrase(Steps(obj, segs))
    ensures Walk(obj, segs, str, None) == Ok(str)
    decreases |segs|
  {
    if segs != [] {
      var st := Steps(obj, segs);
      assert !st[0].Hit?;
      if segs[0] in obj {
        var next := obj[segs[0]].kids;
        assert forall j :: 0 <= j < |segs| - 1 ==> st[j + 1] == Steps(next, segs[1..])[j];
        WalkWithoutLeaf(next, segs[1..], str);
      } else {
        assert forall j :: 0 <= j < |segs| - 1 ==> st[j + 1] == Steps(obj, segs[1..])[j];
        WalkWithoutLeaf(obj, segs[1..], str);
      }
    }
  }

  lemma {:induction false} FinalAfterMiss(steps: seq<Step>, str: string, d: string, j: nat)
    requires j < |steps| && steps[j] == Miss
    requires forall k :: j < k < |steps| ==> !steps[k].Hit?
    ensures Final(steps, str, Some(d)) == d
    decreases |steps|
  {
    var n := |steps|;
    if j < n - 1 && steps[n - 1] == Descend {
      FinalAfterMiss(steps[..n - 1], str, d, j);
    }
  }

  /** With fallback, a walk in which some segment misses and no phrase
      string is met after that miss returns the fallback outcome. */
  lemma WalkFallsBack(obj: Dict, segs: seq<string>, str: string, r: Result<string>, j: nat)
    requires j < |segs| && Steps(obj, segs)[j] == Miss
    requires forall k :: j < k < |segs| ==> !Steps(obj, segs)[k].Hit?
    ensures Walk(obj, segs, str, Some(r)) == r
  {
    var st := Steps(obj, segs);
    WalkIsFinal(obj, segs, str, Some(r));
    if r.Ok? {
      FinalAfterMiss(st, str, r.value, j);
    } else {
      assert st[j] in st;
    }
  }

  lemma {:induction false} FinalAfterHit(steps: seq<Step>, str: string, j: nat, s: string)
    requires j < |steps| && steps[j] == Hit(s)
    requires forall k :: j < k < |steps| ==> !steps[k].Hit?
    ensures Final(steps, str, None) == s
    decreases |steps|
  {
    var n := |steps|;
    if j < n - 1 {
      FinalAfterHit(steps[..n - 1], str, j, s);
    }
  }

  /** Without fallback, the last phrase string the walk meets is the
      result, even when later segments miss. */
  lemma WalkKeepsLastPhrase(obj: Dict, segs: seq<string>, str: string, j: nat, s: string)
    requires j < |segs| && Steps(obj, segs)[j] == Hit(s)
    requires forall k :: j < k < |segs| ==> !Steps(obj, segs)[k].Hit?
    ensures Walk(obj, segs, str, None) == Ok(s)
  {
    WalkIsFinal(obj, segs, str, None);
    FinalAfterHit(Steps(obj, segs), str, j, s);
  }

  /** Whatever happens, a successful walk returns the initial text, the
      fallback text, or a phrase string it met. */
  lemma {:induction false} WalkResultOrigin(obj: Dict, segs: seq<string>, str: string, fb: Option<Result<string>>)
    ensures Walk(obj, segs, str, fb).Ok? ==>
              var t := Walk(obj, segs, str, fb).value;
              t == str || Some(t) == FallbackText(fb) || Hit(t) in Steps(obj, segs)
    decreases |segs|
  {
    if segs != [] {
      if segs[0] in obj {
        match obj[segs[0]]
        case Leaf(s) =>
          WalkResultOrigin(obj, segs[1..], s, fb);
        case Branch(kids) =>
          WalkResultOrigin(kids, segs[1..], str, fb);
      } else {
        match fb
        case None => WalkResultOrigin(obj, segs[1..], str, fb);
        case Some(Err(e)) =>
        case Some(Ok(d)) => WalkResultOrigin(obj, segs[1..], d, fb);
      }
    }
  }
}
