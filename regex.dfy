/** The fragment of .NET regular expressions used to read migration files:
    literals, single-character classes repeated greedily or lazily, and a
    choice between fixed words, with named captures. Matching follows the
    backtracking engine: at each position the alternatives are tried in
    priority order and the first complete match wins; Regex.Matches scans
    left to right and resumes at the end of the previous match. */
module Regexes {
  import opened Text

  /** \s, \w and [^c]. */
  datatype CharClass = Space | Word | AnyBut(excluded: char)

  predicate InClass(c: char, cls: CharClass) {
    match cls
    case Space => IsWhiteSpace(c)
    case Word => ('a' <= c <= 'z') || ('A' <= c <= 'Z') || ('0' <= c <= '9') || c == '_'
    case AnyBut(x) => c != x
  }

  /** One element of a pattern. A Run repeats its class at least `min`
      times, as many as possible first (greedy) or as few as possible first
      (lazy). An empty capture name means the element is not captured. */
  datatype Item =
    | Lit(text: string)
    | Run(cls: CharClass, min: nat, greedy: bool, name: string)
    | OneOf(words: seq<string>, name: string)

  type Pattern = seq<Item>

  /** Capture name to the [start, end) range it matched. */
  type Captures = map<string, (nat, nat)>

  datatype Match = Match(start: nat, end: nat, caps: Captures)

  /** The length of the longest run of `cls` characters starting at pos. */
  function RunLength(s: string, pos: nat, cls: CharClass): (n: nat)
    requires pos <= |s|
    ensures pos + n <= |s|
    ensures forall i :: pos <= i < pos + n ==> InClass(s[i], cls)
    ensures pos + n == |s| || !InClass(s[pos + n], cls)
    decreases |s| - pos
  {
    if pos < |s| && InClass(s[pos], cls) then 1 + RunLength(s, pos + 1, cls) else 0
  }

  /** The repetition counts lo..hi in the order the engine tries them. */
  function Counts(lo: nat, hi: nat, greedy: bool): (r: seq<nat>)
    requires lo <= hi
    ensures |r| == hi - lo + 1
    ensures forall i :: 0 <= i < |r| ==> lo <= r[i] <= hi
    ensures greedy ==> forall i :: 0 <= i < |r| ==> r[i] == hi - i
    ensures !greedy ==> forall i :: 0 <= i < |r| ==> r[i] == lo + i
    decreases hi - lo
  {
    if lo == hi then [lo]
    else if greedy then [hi] + Counts(lo, hi - 1, greedy)
    else [lo] + Counts(lo + 1, hi, greedy)
  }

  function Capture(caps: Captures, name: string, a: nat, b: nat): Captures {
    if name == [] then caps else caps[name := (a, b)]
  }

  /** The first match of p at exactly pos, in the engine's priority order,
      with its end and captures. */
  function MatchAt(p: Pattern, s: string, pos: nat, caps: Captures): (r: Option<(nat, Captures)>)
    requires pos <= |s|
    ensures r.Some? ==> pos <= r.value.0 <= |s|
    decreases |p|, 1, 0
  {
    if p == [] then Some((pos, caps))
    else
      match p[0]
      case Lit(t) =>
        if pos + |t| <= |s| && s[pos..pos + |t|] == t then MatchAt(p[1..], s, pos + |t|, caps) else None
      case Run(cls, min, greedy, name) =>
        var n := RunLength(s, pos, cls);
        if n < min then None else TryCounts(p, s, pos, caps, Counts(min, n, greedy))
      case OneOf(words, name) =>
        TryWords(p, s, pos, caps, words)
  }

  /** Backtracking over the repetition counts of the Run at the head of p. */
  function TryCounts(p: Pattern, s: string, pos: nat, caps: Captures, counts: seq<nat>): (r: Option<(nat, Captures)>)
    requires p != [] && p[0].Run? && pos <= |s|
    requires forall i :: 0 <= i < |counts| ==> pos + counts[i] <= |s|
    ensures r.Some? ==> pos <= r.value.0 <= |s|
    decreases |p|, 0, |counts|
  {
    if counts == [] then None
    else
      var k := counts[0];
      match MatchAt(p[1..], s, pos + k, Capture(caps, p[0].name, pos, pos + k))
      case Some(res) => Some(res)
      case None => TryCounts(p, s, pos, caps, counts[1..])
  }

  /** Backtracking over the alternatives of the OneOf at the head of p. */
  function TryWords(p: Pattern, s: string, pos: nat, caps: Captures, words: seq<string>): (r: Option<(nat, Captures)>)
    requires p != [] && p[0].OneOf? && pos <= |s|
    ensures r.Some? ==> pos <= r.value.0 <= |s|
    decreases |p|, 0, |words|
  {
    if words == [] then None
    else
      var w := words[0];
      var next :=
        if pos + |w| <= |s| && s[pos..pos + |w|] == w then
          MatchAt(p[1..], s, pos + |w|, Capture(caps, p[0].name, pos, pos + |w|))
        else None;
      if next.Some? then next else TryWords(p, s, pos, caps, words[1..])
  }

  /** p matches nowhere in s at a position from lo up to, but not including, hi. */
  predicate NoMatchIn(p: Pattern, s: string, lo: nat, hi: nat) {
    forall k :: lo <= k < hi && k <= |s| ==> MatchAt(p, s, k, map[]).None?
  }

  /** The leftmost position at or after `from` where p matches. */
  function FirstMatch(p: Pattern, s: string, from: nat): (r: Option<Match>)
    requires from <= |s|
    ensures r.Some? ==> from <= r.value.start <= r.value.end <= |s|
    decreases |s| - from
  {
    match MatchAt(p, s, from, map[])
    case Some(res) => Some(Match(from, res.0, res.1))
    case None => if from == |s| then None else FirstMatch(p, s, from + 1)
  }

  /** The match found is a match, and p matches nowhere before it. */
  lemma {:induction false} FirstMatchSpec(p: Pattern, s: string, from: nat)
    requires from <= |s|
    ensures FirstMatch(p, s, from).Some? ==> Found(p, s, FirstMatch(p, s, from).value)
    ensures NoMatchIn(p, s, from, if FirstMatch(p, s, from).Some? then FirstMatch(p, s, from).value.start else |s| + 1)
    decreases |s| - from
  {
    if MatchAt(p, s, from, map[]).None? && from < |s| {
      FirstMatchSpec(p, s, from + 1);
    }
  }

  /** m is a match of p in s: p matches at m.start, up to m.end, with m.caps. */
  predicate Found(p: Pattern, s: string, m: Match) {
    m.start <= |s| && MatchAt(p, s, m.start, map[]) == Some((m.end, m.caps))
  }

  /** Regex.Matches(s): successive leftmost matches, each search resuming
      where the previous match ended (one further on after an empty match). */
  function MatchesFrom(p: Pattern, s: string, from: nat): (ms: seq<Match>)
    requires from <= |s|
    ensures forall i :: 0 <= i < |ms| ==> from <= ms[i].start <= ms[i].end <= |s|
    ensures forall i, j :: 0 <= i < j < |ms| ==> ms[i].end <= ms[j].start && ms[i].start < ms[j].start
    decreases |s| - from
  {
    match FirstMatch(p, s, from)
    case None => []
    case Some(m) =>
      var next := if m.end > m.start then m.end else m.start + 1;
      if next > |s| then [m]
      else
        var rest := MatchesFrom(p, s, next);
        [m] + rest
  }

  /** Every reported match is a match of p in s. */
  lemma {:induction false} MatchesFound(p: Pattern, s: string, from: nat)
    requires from <= |s|
    ensures forall i :: 0 <= i < |MatchesFrom(p, s, from)| ==> Found(p, s, MatchesFrom(p, s, from)[i])
    decreases |s| - from
  {
    var ms := MatchesFrom(p, s, from);
    FirstMatchSpec(p, s, from);
    match FirstMatch(p, s, from)
    case None =>
    case Some(m) =>
      if Resume(m) > |s| {
        assert ms == [m];
      } else {
        MatchesFound(p, s, Resume(m));
        assert ms == [m] + MatchesFrom(p, s, Resume(m));
      }
  }

  function Matches(p: Pattern, s: string): seq<Match> {
    MatchesFrom(p, s, 0)
  }

  /** Match.Groups[name].Value: the captured text, or "" when the group did
      not take part in the match. */
  function Group(s: string, m: Match, name: string): string {
    if name in m.caps && m.caps[name].0 <= m.caps[name].1 <= |s| then s[m.caps[name].0..m.caps[name].1] else ""
  }

  function Resume(m: Match): nat {
    if m.end > m.start then m.end else m.start + 1
  }

  /** Nothing is skipped: every position where p matches is the start of a
      reported match or lies inside one. */
  lemma {:induction false} EveryMatchReported(p: Pattern, s: string, from: nat, k: nat)
    requires from <= k <= |s| && MatchAt(p, s, k, map[]).Some?
    ensures exists i :: (0 <= i < |MatchesFrom(p, s, from)|
      && MatchesFrom(p, s, from)[i].start <= k < Resume(MatchesFrom(p, s, from)[i]))
    decreases |s| - from
  {
    var ms := MatchesFrom(p, s, from);
    var first := FirstMatch(p, s, from);
    FirstMatchSpec(p, s, from);
    assert first.Some?;
    var m := first.value;
    assert m.start <= k;
    if Resume(m) > |s| {
      assert ms == [m];
      assert ms[0].start <= k < Resume(ms[0]);
    } else {
      var rest := MatchesFrom(p, s, Resume(m));
      assert ms == [m] + rest;
      if k >= Resume(m) {
        EveryMatchReported(p, s, Resume(m), k);
        var i :| 0 <= i < |rest| && rest[i].start <= k < Resume(rest[i]);
        assert ms[i + 1] == rest[i];
      } else {
        assert ms[0].start <= k < Resume(ms[0]);
      }
    }
  }

  // ---------------------------------------------------------------------
  // What a capture can hold

  /** The text a named element accepts: a run of one class of a minimum
      length, or one of a list of words. */
  datatype Shape = RunOf(cls: CharClass, min: nat) | WordIn(words: seq<string>)

  predicate HasShape(t: string, shape: Shape) {
    match shape
    case RunOf(cls, min) => |t| >= min && forall i :: 0 <= i < |t| ==> InClass(t[i], cls)
    case WordIn(words) => t in words
  }

  function NameOf(item: Item): string {
    match item
    case Lit(_) => ""
    case Run(_, _, _, name) => name
    case OneOf(_, name) => name
  }

  function ShapeOf(item: Item): Shape {
    match item
    case Lit(_) => WordIn([])
    case Run(cls, min, _, _) => RunOf(cls, min)
    case OneOf(words, _) => WordIn(words)
  }

  /** Every named element of p has the shape `shapes` records for its name. */
  predicate Conforms(p: Pattern, shapes: map<string, Shape>) {
    forall i :: 0 <= i < |p| && NameOf(p[i]) != [] ==> NameOf(p[i]) in shapes && shapes[NameOf(p[i])] == ShapeOf(p[i])
  }

  /** Every recorded capture lies within s and has its recorded shape. */
  predicate Fits(s: string, caps: Captures, shapes: map<string, Shape>) {
    forall n :: n in caps && n in shapes ==>
      caps[n].0 <= caps[n].1 <= |s| && HasShape(s[caps[n].0..caps[n].1], shapes[n])
  }

  /** The names a successful match of p is sure to capture. */
  predicate CapturesNames(p: Pattern, caps: Captures) {
    forall i :: 0 <= i < |p| && NameOf(p[i]) != [] ==> NameOf(p[i]) in caps
  }

  /** A match captures every named element of its pattern, and each capture
      has the shape of its element. */
  lemma {:induction false} MatchFits(p: Pattern, s: string, pos: nat, caps: Captures, shapes: map<string, Shape>)
    requires pos <= |s| && Conforms(p, shapes) && Fits(s, caps, shapes)
    ensures var r := MatchAt(p, s, pos, caps);
      r.Some? ==> Fits(s, r.value.1, shapes) && caps.Keys <= r.value.1.Keys && CapturesNames(p, r.value.1)
    decreases |p|, 1, 0
  {
    if p != [] {
      assert Conforms(p[1..], shapes) by {
        forall i | 0 <= i < |p[1..]| ensures p[1..][i] == p[i + 1] { }
      }
      match p[0]
      case Lit(t) =>
        if pos + |t| <= |s| && s[pos..pos + |t|] == t {
          MatchFits(p[1..], s, pos + |t|, caps, shapes);
          if MatchAt(p[1..], s, pos + |t|, caps).Some? {
            ShiftNames(p, MatchAt(p[1..], s, pos + |t|, caps));
          }
        }
      case Run(cls, min, greedy, name) =>
        var n := RunLength(s, pos, cls);
        if n >= min {
          TryCountsFits(p, s, pos, caps, Counts(min, n, greedy), shapes);
        }
      case OneOf(words, name) =>
        TryWordsFits(p, s, pos, caps, words, shapes);
    }
  }

  /** Names captured by the tail, plus the head's own name, are all names of p. */
  lemma ShiftNames(p: Pattern, r: Option<(nat, Captures)>)
    requires p != [] && r.Some?
    requires CapturesNames(p[1..], r.value.1)
    requires NameOf(p[0]) != [] ==> NameOf(p[0]) in r.value.1
    ensures CapturesNames(p, r.value.1)
  {
    forall i | 0 <= i < |p| && NameOf(p[i]) != [] ensures NameOf(p[i]) in r.value.1 {
      if i > 0 {
        assert p[1..][i - 1] == p[i];
      }
    }
  }

  /** Capturing a run the head element accepts keeps the captures fitting. */
  lemma RunCaptureFits(p: Pattern, s: string, pos: nat, k: nat, caps: Captures, shapes: map<string, Shape>)
    requires p != [] && p[0].Run? && pos + k <= |s|
    requires p[0].min <= k <= RunLength(s, pos, p[0].cls)
    requires Conforms(p, shapes) && Fits(s, caps, shapes)
    ensures Fits(s, Capture(caps, p[0].name, pos, pos + k), shapes)
  {
    if p[0].name != [] {
      assert NameOf(p[0]) == p[0].name;
      assert s[pos..pos + k] == s[pos..][..k];
    }
  }

  /** Capturing a word of the head element keeps the captures fitting. */
  lemma WordCaptureFits(p: Pattern, s: string, pos: nat, w: string, caps: Captures, shapes: map<string, Shape>)
    requires p != [] && p[0].OneOf? && w in p[0].words
    requires pos + |w| <= |s| && s[pos..pos + |w|] == w
    requires Conforms(p, shapes) && Fits(s, caps, shapes)
    ensures Fits(s, Capture(caps, p[0].name, pos, pos + |w|), shapes)
  {
    if p[0].name != [] {
      assert NameOf(p[0]) == p[0].name;
    }
  }

  lemma {:induction false} TryCountsFits(p: Pattern, s: string, pos: nat, caps: Captures, counts: seq<nat>,
                                         shapes: map<string, Shape>)
    requires p != [] && p[0].Run? && pos <= |s|
    requires forall i :: 0 <= i < |counts| ==> pos + counts[i] <= |s|
    requires forall i :: 0 <= i < |counts| ==> p[0].min <= counts[i] <= RunLength(s, pos, p[0].cls)
    requires Conforms(p, shapes) && Conforms(p[1..], shapes) && Fits(s, caps, shapes)
    ensures var r := TryCounts(p, s, pos, caps, counts);
      r.Some? ==> Fits(s, r.value.1, shapes) && caps.Keys <= r.value.1.Keys && CapturesNames(p, r.value.1)
    decreases |p|, 0, |counts|
  {
    if counts != [] {
      var k := counts[0];
      RunStepFits(p, s, pos, caps, k, shapes);
      if MatchAt(p[1..], s, pos + k, Capture(caps, p[0].name, pos, pos + k)).None? {
        TryCountsFits(p, s, pos, caps, counts[1..], shapes);
      }
    }
  }

  /** One count tried by TryCounts: capture the run, then match the rest. */
  lemma RunStepFits(p: Pattern, s: string, pos: nat, caps: Captures, k: nat, shapes: map<string, Shape>)
    requires p != [] && p[0].Run? && pos + k <= |s|
    requires p[0].min <= k <= RunLength(s, pos, p[0].cls)
    requires Conforms(p, shapes) && Conforms(p[1..], shapes) && Fits(s, caps, shapes)
    ensures var r := MatchAt(p[1..], s, pos + k, Capture(caps, p[0].name, pos, pos + k));
      r.Some? ==> Fits(s, r.value.1, shapes) && caps.Keys <= r.value.1.Keys && CapturesNames(p, r.value.1)
    decreases |p|, 0, 0
  {
    var caps' := Capture(caps, p[0].name, pos, pos + k);
    RunCaptureFits(p, s, pos, k, caps, shapes);
    MatchFits(p[1..], s, pos + k, caps', shapes);
    if MatchAt(p[1..], s, pos + k, caps').Some? {
      ShiftNames(p, MatchAt(p[1..], s, pos + k, caps'));
    }
  }

  lemma {:induction false} TryWordsFits(p: Pattern, s: string, pos: nat, caps: Captures, words: seq<string>,
                                        shapes: map<string, Shape>)
    requires p != [] && p[0].OneOf? && pos <= |s|
    requires forall w :: w in words ==> w in p[0].words
    requires Conforms(p, shapes) && Conforms(p[1..], shapes) && Fits(s, caps, shapes)
    ensures var r := TryWords(p, s, pos, caps, words);
      r.Some? ==> Fits(s, r.value.1, shapes) && caps.Keys <= r.value.1.Keys && CapturesNames(p, r.value.1)
    decreases |p|, 0, |words|
  {
    if words != [] {
      var w := words[0];
      if pos + |w| <= |s| && s[pos..pos + |w|] == w {
        var caps' := Capture(caps, p[0].name, pos, pos + |w|);
        WordCaptureFits(p, s, pos, w, caps, shapes);
        MatchFits(p[1..], s, pos + |w|, caps', shapes);
        if MatchAt(p[1..], s, pos + |w|, caps').Some? {
          ShiftNames(p, MatchAt(p[1..], s, pos + |w|, caps'));
        }
      }
      TryWordsFits(p, s, pos, caps, words[1..], shapes);
    }
  }

  /** The groups of a reported match have the shapes of their elements. */
  lemma GroupsFit(p: Pattern, s: string, m: Match, shapes: map<string, Shape>, name: string)
    requires Found(p, s, m) && Conforms(p, shapes)
    requires exists i :: 0 <= i < |p| && NameOf(p[i]) == name && name != []
    ensures name in shapes && HasShape(Group(s, m, name), shapes[name])
  {
    MatchFits(p, s, m.start, map[], shapes);
    var i :| 0 <= i < |p| && NameOf(p[i]) == name && name != [];
  }
}
