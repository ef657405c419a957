/**
 * The `#define` / `#undef` inspection (`MacroDefineUndefInspection`).
 *
 * A file is a tree of elements, each with its text. The visitor walks every
 * element below the file in pre-order, records the name of each `#define`
 * (where it was last defined) and of each `#undef`, and then reports every
 * defined name that is neither undefined anywhere in the file nor, when
 * whitelisting is on, on the whitelist. Afterwards it forgets what it recorded.
 */
module Inspection {
  import opened Wrappers
  import opened TextUtil
  import opened Config

  /** A PSI element: its text and its children, in order. */
  datatype Node = Node(text: string, children: seq<Node>)

  /** Where an element sits: the child indices that lead to it from the file. */
  type Path = seq<nat>

  /** What a directive line records. */
  datatype Directive = Define(name: string) | Undef(name: string)

  /** One element met by the walk: where it is and its text. */
  datatype Visit = Visit(at: Path, text: string)

  /** A reported problem: the `#define` element it is attached to and the macro name. */
  datatype Finding = Finding(location: Path, macroName: string)

  // ---------------------------------------------------------------------------
  // Reading one directive
  // ---------------------------------------------------------------------------

  /** `substringBefore('(')`, applied only when the name holds a `(`. */
  function CutAtParen(name: string): (r: string)
    ensures r <= name && '(' !in r
    ensures '(' !in name ==> r == name
    ensures '(' in name ==> name[|r|] == '('
  {
    if '(' in name then SubstringBefore(name, '(') else name
  }

  /**
   * What `collectMacros` records for an element with text `text`: the second
   * whitespace-separated token of a line starting with `#define` (trimmed, cut at
   * `(`), or of a line starting with `#undef` (trimmed), if there is one.
   */
  function ParseDirective(text: string): (d: Option<Directive>)
    ensures d.Some? && d.value.Define? ==> StartsWith(text, "#define") && '(' !in d.value.name
    ensures d.Some? && d.value.Undef? ==> StartsWith(text, "#undef") && !StartsWith(text, "#define")
    ensures !StartsWith(text, "#define") && !StartsWith(text, "#undef") ==> d.None?
  {
    if StartsWith(text, "#define") then
      var parts := Tokens(text);
      if |parts| >= 2 then Some(Define(CutAtParen(TrimAtMostSpace(parts[1])))) else None
    else if StartsWith(text, "#undef") then
      var parts := Tokens(text);
      if |parts| >= 2 then Some(Undef(TrimAtMostSpace(parts[1]))) else None
    else
      None
  }

  /**
   * A line `head sep name tail` whose first word starts with `#define` defines
   * `name`, trimmed and cut at its first `(`.
   */
  lemma DefineLine(head: string, sep: string, name: string, tail: string)
    requires StartsWith(head, "#define") && NoRegexSpace(head)
    requires sep != [] && AllRegexSpace(sep)
    requires name != [] && NoRegexSpace(name)
    requires tail == [] || IsRegexSpace(tail[0])
    ensures ParseDirective(head + sep + name + tail) == Some(Define(CutAtParen(TrimAtMostSpace(name))))
  {
    var text := head + sep + name + tail;
    FirstTwoTokens(head, sep, name, tail);
    assert text[..|head|] == head;
    assert StartsWith(text, "#define");
  }

  /**
   * A line `head sep name tail` whose first word starts with `#undef` (and not
   * with `#define`) undefines `name`, trimmed but not cut.
   */
  lemma UndefLine(head: string, sep: string, name: string, tail: string)
    requires StartsWith(head, "#undef") && NoRegexSpace(head)
    requires sep != [] && AllRegexSpace(sep)
    requires name != [] && NoRegexSpace(name)
    requires tail == [] || IsRegexSpace(tail[0])
    ensures ParseDirective(head + sep + name + tail) == Some(Undef(TrimAtMostSpace(name)))
  {
    var text := head + sep + name + tail;
    FirstTwoTokens(head, sep, name, tail);
    assert text[..|head|] == head;
    assert StartsWith(text, "#undef");
    assert !StartsWith(text, "#define") by {
      assert text[1] == head[1];
    }
  }

  /** A directive word with nothing after it but whitespace records nothing. */
  lemma ShortLine(word: string, spaces: string)
    requires NoRegexSpace(word) && AllRegexSpace(spaces)
    ensures ParseDirective(word + spaces) == None
  {
    SingleWordTokens(word, spaces);
  }

  /** `#define (x)` records the empty name: the cut at `(` leaves nothing. */
  lemma DefineOfParenthesisOnly()
    ensures ParseDirective("#define (x)") == Some(Define(""))
  {
    DefineLine("#define", " ", "(x)", "");
    assert "#define" + " " + "(x)" + "" == "#define (x)";
    assert TrimAtMostSpace("(x)") == "(x)";
  }

  /**
   * A function-like macro `#define NAME(params) ...` is recorded under `NAME`, the
   * part before its parameter list; `NAME` may be empty, as in `#define (x)`.
   */
  lemma DefineOfFunctionLike(name: string, params: string, rest: string)
    requires '(' !in name && params != [] && params[0] == '('
    requires forall k :: 0 <= k < |name + params| ==> !IsAtMostSpace((name + params)[k])
    requires rest == [] || IsRegexSpace(rest[0])
    ensures ParseDirective("#define" + " " + (name + params) + rest) == Some(Define(name))
  {
    var w := name + params;
    assert NoRegexSpace(w);
    DefineLine("#define", " ", w, rest);
    assert TrimAtMostSpace(w) == w by {
      assert DropLeading(w, AtMostSpace) == w;
      assert DropTrailing(w, AtMostSpace) == w;
    }
    assert w[|name|] == '(';
    assert forall k :: 0 <= k < |name| ==> w[k] == name[k];
    assert IndexOf(w, '(') == |name|;
    assert w[..|name|] == name;
  }

  /** Only the prefix is checked: `#defined X` counts as a definition of `X`. */
  lemma DefinedCountsAsDefine()
    ensures ParseDirective("#defined X") == Some(Define("X"))
  {
    DefineLine("#defined", " ", "X", "");
    assert "#defined" + " " + "X" + "" == "#defined X";
    assert TrimAtMostSpace("X") == "X";
  }

  /** Only the prefix is checked: `#undefine X` counts as an undefinition of `X`. */
  lemma UndefineCountsAsUndef()
    ensures ParseDirective("#undefine X") == Some(Undef("X"))
  {
    UndefLine("#undefine", " ", "X", "");
    assert "#undefine" + " " + "X" + "" == "#undefine X";
    assert TrimAtMostSpace("X") == "X";
  }

  // ---------------------------------------------------------------------------
  // Walking the tree
  // ---------------------------------------------------------------------------

  /**
   * The visits of the first `k` children of `n` (which sits at `at`), each child
   * followed by its own descendants.
   */
  function ChildrenVisits(n: Node, k: nat, at: Path): seq<Visit>
    requires k <= |n.children|
    decreases n, k
  {
    if k == 0 then []
    else
      ChildrenVisits(n, k - 1, at) +
      [Visit(at + [k - 1], n.children[k - 1].text)] +
      Descendants(n.children[k - 1], at + [k - 1])
  }

  /** Every element strictly below `n`, in pre-order. */
  function Descendants(n: Node, at: Path): seq<Visit>
    decreases n, |n.children| + 1
  {
    ChildrenVisits(n, |n.children|, at)
  }

  /** The element reached from `n` by following `p`, if `p` leads anywhere. */
  function Subtree(n: Node, p: Path): Option<Node>
    decreases |p|
  {
    if p == [] then Some(n)
    else if p[0] < |n.children| then Subtree(n.children[p[0]], p[1..])
    else None
  }

  /** A visit is a real element below the walk's start, and it carries that element's text. */
  predicate Below(n: Node, at: Path, v: Visit) {
    |v.at| > |at| && v.at[..|at|] == at &&
    Subtree(n, v.at[|at|..]).Some? && Subtree(n, v.at[|at|..]).value.text == v.text
  }

  lemma SubtreeStep(n: Node, i: nat, q: Path)
    requires i < |n.children|
    ensures Subtree(n, [i] + q) == Subtree(n.children[i], q)
  {
    assert ([i] + q)[1..] == q;
  }

  /** Every visit of the walk is an element of the tree, with its own text. */
  lemma {:induction false} ChildrenVisitsBelow(n: Node, k: nat, at: Path)
    requires k <= |n.children|
    ensures forall v :: v in ChildrenVisits(n, k, at) ==> Below(n, at, v)
    decreases n, k
  {
    if k > 0 {
      var c := n.children[k - 1];
      var at' := at + [k - 1];
      var here := Visit(at', c.text);
      var prior := ChildrenVisits(n, k - 1, at);
      var below := Descendants(c, at');
      assert ChildrenVisits(n, k, at) == prior + [here] + below;
      ChildrenVisitsBelow(n, k - 1, at);
      DescendantsBelow(c, at');
      forall v | v in ChildrenVisits(n, k, at)
        ensures Below(n, at, v)
      {
        if v in prior {
        } else if v == here {
          assert here.at[..|at|] == at;
          assert here.at[|at|..] == [k - 1] + [];
          SubtreeStep(n, k - 1, []);
        } else {
          assert v in below;
          var q := v.at[|at'|..];
          assert v.at[..|at'|] == at';
          assert v.at[..|at|] == at;
          assert v.at[|at|..] == [k - 1] + q;
          SubtreeStep(n, k - 1, q);
        }
      }
    }
  }

  lemma {:induction false} DescendantsBelow(n: Node, at: Path)
    ensures forall v :: v in Descendants(n, at) ==> Below(n, at, v)
    decreases n, |n.children| + 1
  {
    ChildrenVisitsBelow(n, |n.children|, at);
  }

  /** Visiting more children only extends the run of visits. */
  lemma {:induction false} ChildrenVisitsGrow(n: Node, k: nat, k': nat, at: Path)
    requires k <= k' <= |n.children|
    ensures ChildrenVisits(n, k, at) <= ChildrenVisits(n, k', at)
    decreases k' - k
  {
    if k < k' {
      ChildrenVisitsGrow(n, k, k' - 1, at);
      assert ChildrenVisits(n, k', at) ==
             ChildrenVisits(n, k' - 1, at) + ([Visit(at + [k' - 1], n.children[k' - 1].text)] +
                                              Descendants(n.children[k' - 1], at + [k' - 1]));
    }
  }

  /** Child `i` is visited, and so is everything the walk visits below it. */
  lemma ChildVisited(n: Node, i: nat, at: Path)
    requires i < |n.children|
    ensures Visit(at + [i], n.children[i].text) in Descendants(n, at)
    ensures forall v :: v in Descendants(n.children[i], at + [i]) ==> v in Descendants(n, at)
  {
    var here := Visit(at + [i], n.children[i].text);
    var part := ChildrenVisits(n, i, at) + [here] + Descendants(n.children[i], at + [i]);
    assert ChildrenVisits(n, i + 1, at) == part;
    ChildrenVisitsGrow(n, i + 1, |n.children|, at);
    assert part <= Descendants(n, at);
    assert here == part[|ChildrenVisits(n, i, at)|];
    forall v | v in Descendants(n.children[i], at + [i])
      ensures v in Descendants(n, at)
    {
      assert v in part;
    }
  }

  /** The walk misses nothing: every element strictly below `n` is visited, at its path, with its text. */
  lemma {:induction false} DescendantsComplete(n: Node, at: Path, p: Path)
    requires p != [] && Subtree(n, p).Some?
    ensures Visit(at + p, Subtree(n, p).value.text) in Descendants(n, at)
    decreases |p|
  {
    var i := p[0];
    var q := p[1..];
    assert p == [i] + q;
    assert i < |n.children|;
    var c := n.children[i];
    SubtreeStep(n, i, q);
    ChildVisited(n, i, at);
    if q == [] {
      assert at + p == at + [i];
    } else {
      DescendantsComplete(c, at + [i], q);
      assert at + [i] + q == at + p;
    }
  }

  // ---------------------------------------------------------------------------
  // What the walk records
  // ---------------------------------------------------------------------------

  /** What one visit amounts to for the collections: where it is and what it records. */
  datatype Step = Step(at: Path, directive: Option<Directive>)

  function StepOf(v: Visit): Step {
    Step(v.at, ParseDirective(v.text))
  }

  /** The steps of a run of visits, one per visit. */
  function Steps(vs: seq<Visit>): seq<Step> {
    seq(|vs|, i requires 0 <= i < |vs| => StepOf(vs[i]))
  }

  lemma StepsAppend(a: seq<Visit>, b: seq<Visit>)
    ensures Steps(a + b) == Steps(a) + Steps(b)
  {
  }

  predicate Defines(s: Step, n: string) {
    s.directive == Some(Define(n))
  }

  predicate Undefines(s: Step, n: string) {
    s.directive == Some(Undef(n))
  }

  /** The visitor's two collections: `macroDefines` and `macroUndefs`. */
  datatype Tally = Tally(defines: map<string, Path>, undefs: set<string>)

  /** One step's effect on the collections: a define overwrites, an undef adds. */
  function Record(t: Tally, s: Step): Tally {
    match s.directive
    case Some(Define(name)) => t.(defines := t.defines[name := s.at])
    case Some(Undef(name)) => t.(undefs := t.undefs + {name})
    case None => t
  }

  /** The collections after recording the steps in order. */
  function Replay(t: Tally, ss: seq<Step>): Tally
    decreases |ss|
  {
    if ss == [] then t else Record(Replay(t, ss[..|ss| - 1]), ss[|ss| - 1])
  }

  /** Recording two runs of steps is recording the first and then the second. */
  lemma {:induction false} ReplayAppend(t: Tally, a: seq<Step>, b: seq<Step>)
    ensures Replay(t, a + b) == Replay(Replay(t, a), b)
    decreases |b|
  {
    if b == [] {
      assert a + b == a;
    } else {
      assert (a + b)[..|a + b| - 1] == a + b[..|b| - 1];
      ReplayAppend(t, a, b[..|b| - 1]);
    }
  }

  /**
   * Recording the first `k + 1` children of `n` is recording the first `k`, then
   * child `k` itself, then everything below it.
   */
  lemma ReplayChildrenStep(t: Tally, n: Node, k: nat, at: Path)
    requires k < |n.children|
    ensures Replay(t, Steps(ChildrenVisits(n, k + 1, at))) ==
            Replay(Record(Replay(t, Steps(ChildrenVisits(n, k, at))), Step(at + [k], ParseDirective(n.children[k].text))),
                   Steps(Descendants(n.children[k], at + [k])))
  {
    var prior := ChildrenVisits(n, k, at);
    var here := Visit(at + [k], n.children[k].text);
    var below := Descendants(n.children[k], at + [k]);
    assert ChildrenVisits(n, k + 1, at) == prior + [here] + below;
    StepsAppend(prior + [here], below);
    StepsAppend(prior, [here]);
    assert Steps([here]) == [StepOf(here)] by {
      assert [here][..0] == [];
    }
    ReplayAppend(t, Steps(prior) + [StepOf(here)], Steps(below));
    ReplayAppend(t, Steps(prior), [StepOf(here)]);
    assert [StepOf(here)][..0] == [];
  }

  /** Where the last `#define` of `n` among the steps is, if there is one. */
  function LastDefine(ss: seq<Step>, n: string): Option<Path>
    decreases |ss|
  {
    if ss == [] then None
    else if Defines(ss[|ss| - 1], n) then Some(ss[|ss| - 1].at)
    else LastDefine(ss[..|ss| - 1], n)
  }

  /**
   * The last define wins: `LastDefine` finds a define of `n` exactly when there
   * is one, and no define of `n` comes after the one it finds.
   */
  lemma {:induction false} LastDefineIsLast(ss: seq<Step>, n: string)
    ensures LastDefine(ss, n).Some? <==> exists i :: 0 <= i < |ss| && Defines(ss[i], n)
    ensures LastDefine(ss, n).Some? ==>
              exists i :: 0 <= i < |ss| && Defines(ss[i], n) && ss[i].at == LastDefine(ss, n).value &&
                          forall j :: i < j < |ss| ==> !Defines(ss[j], n)
    decreases |ss|
  {
    if ss != [] {
      var p := ss[..|ss| - 1];
      var last := |ss| - 1;
      LastDefineIsLast(p, n);
      assert forall i :: 0 <= i < |p| ==> p[i] == ss[i];
      if Defines(ss[last], n) {
        assert ss[last].at == LastDefine(ss, n).value;
      } else {
        if exists i :: 0 <= i < |ss| && Defines(ss[i], n) {
          var i :| 0 <= i < |ss| && Defines(ss[i], n);
          assert Defines(p[i], n);
        }
        if LastDefine(p, n).Some? {
          var i :| 0 <= i < |p| && Defines(p[i], n) && p[i].at == LastDefine(p, n).value &&
                   forall j :: i < j < |p| ==> !Defines(p[j], n);
          assert Defines(ss[i], n) && ss[i].at == LastDefine(ss, n).value;
        }
      }
    }
  }

  /** The recorded defines: every name defined along the way, at its last define. */
  lemma {:induction false} ReplayDefines(t: Tally, ss: seq<Step>, n: string)
    ensures n in Replay(t, ss).defines <==> n in t.defines || LastDefine(ss, n).Some?
    ensures LastDefine(ss, n).Some? ==> Replay(t, ss).defines[n] == LastDefine(ss, n).value
    ensures LastDefine(ss, n).None? && n in t.defines ==> Replay(t, ss).defines[n] == t.defines[n]
    decreases |ss|
  {
    if ss != [] {
      ReplayDefines(t, ss[..|ss| - 1], n);
    }
  }

  /** The recorded undefs: the names undefined anywhere along the way. */
  lemma {:induction false} ReplayUndefs(t: Tally, ss: seq<Step>, n: string)
    ensures n in Replay(t, ss).undefs <==>
            n in t.undefs || exists i :: 0 <= i < |ss| && Undefines(ss[i], n)
    decreases |ss|
  {
    if ss != [] {
      var p := ss[..|ss| - 1];
      ReplayUndefs(t, p, n);
      assert forall i :: 0 <= i < |p| ==> p[i] == ss[i];
      if exists i :: 0 <= i < |ss| && Undefines(ss[i], n) {
        var i :| 0 <= i < |ss| && Undefines(ss[i], n);
        if i < |p| {
          assert Undefines(p[i], n);
        }
      }
    }
  }

  // ---------------------------------------------------------------------------
  // What is reported
  // ---------------------------------------------------------------------------

  /** `visitFile` reports `n`: defined, not whitelisted (when that is on), not undefined. */
  predicate IsReported(t: Tally, enableWhitelist: bool, whitelist: set<string>, n: string) {
    n in t.defines && !(enableWhitelist && n in whitelist) && n !in t.undefs
  }

  /** The names `visitFile` reports. */
  function ReportedNames(t: Tally, enableWhitelist: bool, whitelist: set<string>): set<string> {
    set n | n in t.defines && IsReported(t, enableWhitelist, whitelist, n)
  }

  /** Every finding is a reported name among `done`, at its recorded define. */
  predicate FindingsSound(fs: seq<Finding>, t: Tally, enableWhitelist: bool, whitelist: set<string>,
                          done: set<string>) {
    forall k :: 0 <= k < |fs| ==>
      fs[k].macroName in done && IsReported(t, enableWhitelist, whitelist, fs[k].macroName) &&
      fs[k].location == t.defines[fs[k].macroName]
  }

  /** Every reported name among `done` has a finding. */
  predicate FindingsCover(fs: seq<Finding>, t: Tally, enableWhitelist: bool, whitelist: set<string>,
                          done: set<string>) {
    forall n :: n in done && IsReported(t, enableWhitelist, whitelist, n) ==>
      exists k :: 0 <= k < |fs| && fs[k].macroName == n
  }

  /** No name has two findings. */
  predicate FindingsDistinct(fs: seq<Finding>) {
    forall j, k :: 0 <= j < k < |fs| ==> fs[j].macroName != fs[k].macroName
  }

  /**
   * Among the names in `done`, `fs` reports exactly the reported ones, each once,
   * each at the element of its recorded define.
   */
  predicate ReportsAmong(fs: seq<Finding>, t: Tally, enableWhitelist: bool, whitelist: set<string>,
                         done: set<string>) {
    FindingsSound(fs, t, enableWhitelist, whitelist, done) &&
    FindingsCover(fs, t, enableWhitelist, whitelist, done) &&
    FindingsDistinct(fs)
  }

  /** `fs` reports exactly the reported names, each once, each at its recorded define. */
  predicate ReportsExactly(fs: seq<Finding>, t: Tally, enableWhitelist: bool, whitelist: set<string>) {
    ReportsAmong(fs, t, enableWhitelist, whitelist, t.defines.Keys)
  }

  /**
   * Passing over one more name keeps the report exact among the names passed:
   * a reported name gets its problem, any other name none.
   */
  lemma ReportsAmongStep(fs: seq<Finding>, t: Tally, enableWhitelist: bool, whitelist: set<string>,
                         done: set<string>, n: string)
    requires ReportsAmong(fs, t, enableWhitelist, whitelist, done)
    requires n in t.defines && n !in done
    ensures ReportsAmong(fs + (if IsReported(t, enableWhitelist, whitelist, n) then [Finding(t.defines[n], n)] else []),
                         t, enableWhitelist, whitelist, done + {n})
  {
    if IsReported(t, enableWhitelist, whitelist, n) {
      ReportedStep(fs, t, enableWhitelist, whitelist, done, n);
    } else {
      assert fs + [] == fs;
      UnreportedStep(fs, t, enableWhitelist, whitelist, done, n);
    }
  }

  /** A reported name passed over gets its finding, appended. */
  lemma ReportedStep(fs: seq<Finding>, t: Tally, enableWhitelist: bool, whitelist: set<string>,
                     done: set<string>, n: string)
    requires ReportsAmong(fs, t, enableWhitelist, whitelist, done)
    requires n in t.defines && n !in done && IsReported(t, enableWhitelist, whitelist, n)
    ensures ReportsAmong(fs + [Finding(t.defines[n], n)], t, enableWhitelist, whitelist, done + {n})
  {
    var fs' := fs + [Finding(t.defines[n], n)];
    assert forall k :: 0 <= k < |fs| ==> fs'[k] == fs[k];
    assert FindingsSound(fs', t, enableWhitelist, whitelist, done + {n});
    forall m | m in done + {n} && IsReported(t, enableWhitelist, whitelist, m)
      ensures exists k :: 0 <= k < |fs'| && fs'[k].macroName == m
    {
      if m == n {
        assert fs'[|fs|].macroName == m;
      } else {
        var k :| 0 <= k < |fs| && fs[k].macroName == m;
        assert fs'[k].macroName == m;
      }
    }
    assert FindingsDistinct(fs');
  }

  /** A name that is not reported is passed over without a finding. */
  lemma UnreportedStep(fs: seq<Finding>, t: Tally, enableWhitelist: bool, whitelist: set<string>,
                       done: set<string>, n: string)
    requires ReportsAmong(fs, t, enableWhitelist, whitelist, done)
    requires !IsReported(t, enableWhitelist, whitelist, n)
    ensures ReportsAmong(fs, t, enableWhitelist, whitelist, done + {n})
  {
  }

  /** The names of a list of findings. */
  function FindingNames(fs: seq<Finding>): set<string> {
    set k | 0 <= k < |fs| :: fs[k].macroName
  }

  /** Findings with distinct names have as many names as findings. */
  lemma {:induction false} FindingNamesCount(fs: seq<Finding>)
    requires forall j, k :: 0 <= j < k < |fs| ==> fs[j].macroName != fs[k].macroName
    ensures |FindingNames(fs)| == |fs|
    decreases |fs|
  {
    if fs != [] {
      var p := fs[..|fs| - 1];
      assert forall k :: 0 <= k < |p| ==> p[k] == fs[k];
      FindingNamesCount(p);
      assert FindingNames(fs) == FindingNames(p) + {fs[|fs| - 1].macroName};
      assert fs[|fs| - 1].macroName !in FindingNames(p);
    }
  }

  /** A file gets exactly one problem per reported name. */
  lemma ReportCount(fs: seq<Finding>, t: Tally, enableWhitelist: bool, whitelist: set<string>)
    requires ReportsExactly(fs, t, enableWhitelist, whitelist)
    ensures |fs| == |ReportedNames(t, enableWhitelist, whitelist)|
  {
    FindingNamesCount(fs);
    assert FindingNames(fs) == ReportedNames(t, enableWhitelist, whitelist);
  }

  /** The steps of the walk over a whole file, which sits at the empty path. */
  function FileSteps(file: Node): seq<Step> {
    Steps(Descendants(file, []))
  }

  /**
   * Starting from empty collections, a name is reported for a file exactly when
   * some element below the file defines it, none undefines it, and whitelisting
   * is off or the name (compared case-sensitively) is not on the whitelist; the
   * problem is attached to the name's last define.
   */
  lemma FindingIff(file: Node, enableWhitelist: bool, whitelist: set<string>, n: string)
    ensures var ss := FileSteps(file);
            n in ReportedNames(Replay(Tally(map[], {}), ss), enableWhitelist, whitelist) <==>
              (exists i :: 0 <= i < |ss| && Defines(ss[i], n)) &&
              !(exists i :: 0 <= i < |ss| && Undefines(ss[i], n)) &&
              !(enableWhitelist && n in whitelist)
    ensures var ss := FileSteps(file);
            n in Replay(Tally(map[], {}), ss).defines ==>
              LastDefine(ss, n).Some? && Replay(Tally(map[], {}), ss).defines[n] == LastDefine(ss, n).value
  {
    var ss := FileSteps(file);
    ReplayDefines(Tally(map[], {}), ss, n);
    ReplayUndefs(Tally(map[], {}), ss, n);
    LastDefineIsLast(ss, n);
  }

  /** The element of `file` at `p` (strictly below it) holds directive `d`. */
  predicate ElementHolds(file: Node, p: Path, d: Directive) {
    p != [] && Subtree(file, p).Some? && ParseDirective(Subtree(file, p).value.text) == Some(d)
  }

  /** Some step of the file's walk records `d` exactly when some element below the file holds it. */
  lemma StepsMatchElements(file: Node, d: Directive)
    ensures (exists i :: 0 <= i < |FileSteps(file)| && FileSteps(file)[i].directive == Some(d)) <==>
            (exists p :: ElementHolds(file, p, d))
  {
    var vs := Descendants(file, []);
    var ss := FileSteps(file);
    if i :| 0 <= i < |ss| && ss[i].directive == Some(d) {
      DescendantsBelow(file, []);
      var v := vs[i];
      assert Below(file, [], v);
      assert v.at[0..] == v.at;
      assert ElementHolds(file, v.at, d);
    }
    if p :| ElementHolds(file, p, d) {
      DescendantsComplete(file, [], p);
      assert [] + p == p;
      var v := Visit(p, Subtree(file, p).value.text);
      var i :| 0 <= i < |vs| && vs[i] == v;
      assert ss[i].directive == Some(d);
    }
  }

  /**
   * The report in terms of the tree itself: a name is reported for a file
   * exactly when some element below the file defines it, no element below the
   * file undefines it, and it is not whitelisted.
   */
  lemma FileFindingIff(file: Node, enableWhitelist: bool, whitelist: set<string>, n: string)
    ensures n in ReportedNames(Replay(Tally(map[], {}), FileSteps(file)), enableWhitelist, whitelist) <==>
              (exists p :: ElementHolds(file, p, Define(n))) &&
              !(exists p :: ElementHolds(file, p, Undef(n))) &&
              !(enableWhitelist && n in whitelist)
  {
    FindingIff(file, enableWhitelist, whitelist, n);
    StepsMatchElements(file, Define(n));
    StepsMatchElements(file, Undef(n));
  }

  /**
   * The whitelist is consulted case-sensitively, while the stored list treats
   * names equal ignoring case as the same entry: with `FOO` stored and enabled, a
   * file that defines `foo` and never undefines it is still reported.
   */
  lemma WhitelistIsCaseSensitive(ms: seq<MacroEntry>, i: nat, file: Node, n: string)
    requires IsClean(ms) && i < |ms| && ms[i].enabled
    requires ms[i].name != n && MacroEntry(n, true).Equals(ms[i])
    requires exists k :: 0 <= k < |FileSteps(file)| && Defines(FileSteps(file)[k], n)
    requires !exists k :: 0 <= k < |FileSteps(file)| && Undefines(FileSteps(file)[k], n)
    ensures n !in EnabledNames(ms)
    ensures n in ReportedNames(Replay(Tally(map[], {}), FileSteps(file)), true, EnabledNames(ms))
  {
    forall j | 0 <= j < |ms|
      ensures ms[j].name != n
    {
      if j != i {
        assert Lower(ms[j].name) != Lower(ms[i].name);
      }
    }
    FindingIff(file, true, EnabledNames(ms), n);
  }

  // ---------------------------------------------------------------------------
  // The visitor
  // ---------------------------------------------------------------------------

  /** Where problems go. */
  class ProblemsHolder {
    var problems: seq<Finding>

    constructor ()
      ensures problems == []
    {
      problems := [];
    }

    /** `registerProblem`: one more problem, after the earlier ones. */
    method RegisterProblem(f: Finding)
      modifies this
      ensures problems == old(problems) + [f]
    {
      problems := problems + [f];
    }
  }

  class MacroDefineUndefVisitor {
    const holder: ProblemsHolder
    const enableWhitelist: bool
    const whitelist: set<string>
    var macroDefines: map<string, Path>
    var macroUndefs: set<string>

    /** The two collections as one value. */
    function Collected(): Tally
      reads this
    {
      Tally(macroDefines, macroUndefs)
    }

    constructor (holder: ProblemsHolder, enableWhitelist: bool, whitelist: set<string>)
      ensures this.holder == holder && this.enableWhitelist == enableWhitelist
      ensures this.whitelist == whitelist
      ensures Collected() == Tally(map[], {})
    {
      this.holder := holder;
      this.enableWhitelist := enableWhitelist;
      this.whitelist := whitelist;
      macroDefines := map[];
      macroUndefs := {};
    }

    /**
     * The body of `collectMacros` for one child with text `text` at `at`: a
     * `#define` overwrites the name's element, an `#undef` adds the name.
     */
    method RecordChild(text: string, at: Path)
      modifies this
      ensures Collected() == Record(old(Collected()), Step(at, ParseDirective(text)))
    {
      if StartsWith(text, "#define") {
        var parts := Tokens(text);
        if |parts| >= 2 {
          var macroName := TrimAtMostSpace(parts[1]);
          if '(' in macroName {
            macroName := SubstringBefore(macroName, '(');
          }
          macroDefines := macroDefines[macroName := at];
        }
      } else if StartsWith(text, "#undef") {
        var parts := Tokens(text);
        if |parts| >= 2 {
          var macroName := TrimAtMostSpace(parts[1]);
          macroUndefs := macroUndefs + {macroName};
        }
      }
    }

    /**
     * `collectMacros`: records the directive of every element below `element`
     * (which sits at `at`), in pre-order.
     */
    method CollectMacros(element: Node, at: Path)
      modifies this
      ensures Collected() == Replay(old(Collected()), Steps(Descendants(element, at)))
      decreases element
    {
      for i := 0 to |element.children|
        invariant Collected() == Replay(old(Collected()), Steps(ChildrenVisits(element, i, at)))
      {
        var child := element.children[i];
        RecordChild(child.text, at + [i]);
        CollectMacros(child, at + [i]);
        ReplayChildrenStep(old(Collected()), element, i, at);
      }
    }

    /**
     * The loop of `visitFile`: one problem, after those already held, for every
     * recorded define whose name is neither whitelisted (when that is on) nor undefined.
     */
    method RegisterUnmatched()
      modifies holder
      ensures |holder.problems| >= |old(holder.problems)|
      ensures holder.problems[..|old(holder.problems)|] == old(holder.problems)
      ensures ReportsExactly(holder.problems[|old(holder.problems)|..], Collected(), enableWhitelist, whitelist)
    {
      ghost var t := Collected();
      var remaining := macroDefines.Keys;
      ghost var done: set<string> := {};
      ghost var fs: seq<Finding> := [];
      while remaining != {}
        invariant remaining <= t.defines.Keys && done == t.defines.Keys - remaining
        invariant holder.problems == old(holder.problems) + fs
        invariant ReportsAmong(fs, t, enableWhitelist, whitelist, done)
        decreases |remaining|
      {
        var macroName :| macroName in remaining;
        remaining := remaining - {macroName};
        ghost var reported := IsReported(t, enableWhitelist, whitelist, macroName);
        ghost var next := fs + (if reported then [Finding(t.defines[macroName], macroName)] else []);
        ReportsAmongStep(fs, t, enableWhitelist, whitelist, done, macroName);
        done := done + {macroName};
        var defineElement := macroDefines[macroName];
        if enableWhitelist && macroName in whitelist {
          assert next == fs;
          continue;
        }
        if macroName !in macroUndefs {
          holder.RegisterProblem(Finding(defineElement, macroName));
        } else {
          assert next == fs;
        }
        fs := next;
      }
      assert holder.problems[|old(holder.problems)|..] == fs;
    }

    /**
     * `visitFile`: records the directives below `file`, registers one problem per
     * reported name, after the problems already held, and empties both collections.
     */
    method VisitFile(file: Node)
      modifies this, holder
      ensures |holder.problems| >= |old(holder.problems)|
      ensures holder.problems[..|old(holder.problems)|] == old(holder.problems)
      ensures ReportsExactly(holder.problems[|old(holder.problems)|..],
                             Replay(old(Collected()), FileSteps(file)), enableWhitelist, whitelist)
      ensures Collected() == Tally(map[], {})
    {
      CollectMacros(file, []);
      RegisterUnmatched();
      macroDefines := map[];
      macroUndefs := {};
    }
  }

  /**
   * `buildVisitor`: a visitor that reports to `holder` and uses the configuration's
   * switch and its enabled names as the whitelist.
   */
  method BuildVisitor(holder: ProblemsHolder, config: MacroCheckConfig) returns (v: MacroDefineUndefVisitor)
    ensures fresh(v)
    ensures v.holder == holder && v.enableWhitelist == config.IsEnableWhitelist()
    ensures v.whitelist == config.GetEnabledMacros()
    ensures v.Collected() == Tally(map[], {})
  {
    var enabledMacros := config.GetEnabledMacros();
    v := new MacroDefineUndefVisitor(holder, config.IsEnableWhitelist(), enabledMacros);
  }

  // ---------------------------------------------------------------------------
  // `parseWhitelist`
  // ---------------------------------------------------------------------------

  /** `parseWhitelist`: the comma-separated pieces, trimmed, blank ones dropped. */
  function ParseWhitelist(whitelistStr: string): set<string> {
    set p | p in SplitOnChar(whitelistStr, ',') && Trim(p) != [] :: Trim(p)
  }

  /** The parsed names are non-empty, trimmed and free of commas. */
  lemma ParseWhitelistShape(whitelistStr: string)
    ensures forall n :: n in ParseWhitelist(whitelistStr) ==> n != [] && IsTrimmed(n) && ',' !in n
  {
    forall n | n in ParseWhitelist(whitelistStr)
      ensures n != [] && IsTrimmed(n) && ',' !in n
    {
      var p :| p in SplitOnChar(whitelistStr, ',') && Trim(p) != [] && Trim(p) == n;
      TrimIsTrimmed(p);
      TrimWithShape(p, Whitespace);
    }
  }

  /** Names already non-empty, trimmed and comma-free are read back from their comma-joined list. */
  lemma ParseWhitelistOfJoin(names: seq<string>)
    requires |names| >= 1
    requires forall k :: 0 <= k < |names| ==> names[k] != [] && IsTrimmed(names[k]) && ',' !in names[k]
    ensures ParseWhitelist(JoinWith(names, ',')) == set k | 0 <= k < |names| :: names[k]
  {
    JoinSplitOnChar(names, ',');
    forall k | 0 <= k < |names|
      ensures Trim(names[k]) == names[k]
    {
      TrimOfTrimmed(names[k]);
    }
  }
}
