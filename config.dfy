/**
 * The project-level whitelist store (`MacroCheckConfig`): an ordered list of
 * `(name, enabled)` entries plus the switch that turns whitelisting on.
 *
 * Loading a state and replacing the list both clean the entries the same way:
 * each name is trimmed, blank names are dropped, and of several names that are
 * equal ignoring case only the first is kept.
 */
module Config {
  import opened TextUtil

  /**
   * One whitelist entry. Its equality and hash code look at the name only,
   * ignoring case; the `enabled` flag plays no part in either.
   */
  datatype MacroEntry = MacroEntry(name: string, enabled: bool) {

    /** `equals`: the names are equal ignoring case. */
    predicate Equals(other: MacroEntry) {
      EqualsIgnoreCase(name, other.name)
    }

    /** `hashCode`: the Java hash of the lower-cased name. */
    function HashCode(): int {
      JavaStringHash(Lower(name))
    }
  }

  /** The persisted settings. */
  datatype State = State(whitelistMacros: seq<MacroEntry>, enableWhitelist: bool)

  /** The names the whitelist is seeded with when nothing has been stored yet. */
  const DefaultMacroNames: seq<string> :=
    ["DEBUG", "NDEBUG", "_DEBUG", "__cplusplus", "__FILE__",
     "__LINE__", "__DATE__", "__TIME__", "__STDC__", "__STDC_VERSION__"]

  /** The settings before anything is loaded: every default name enabled, whitelisting on. */
  function DefaultState(): State {
    State(seq(|DefaultMacroNames|, k requires 0 <= k < |DefaultMacroNames| =>
                MacroEntry(DefaultMacroNames[k], true)),
          true)
  }

  // ---------------------------------------------------------------------------
  // Cleaning: trim, drop blank, first wins among names equal ignoring case
  // ---------------------------------------------------------------------------

  /** The key under which an entry is de-duplicated: its trimmed name, lower-cased. */
  function Key(e: MacroEntry): string {
    Lower(Trim(e.name))
  }

  /**
   * What is left of `es` once each name is trimmed, blank names are dropped, and
   * names whose key is already in `seen` (or met earlier in `es`) are dropped.
   */
  function CleanFrom(seen: set<string>, es: seq<MacroEntry>): seq<MacroEntry>
    decreases |es|
  {
    if es == [] then []
    else
      var normalizedName := Trim(es[0].name);
      if normalizedName != [] && Lower(normalizedName) !in seen then
        [MacroEntry(normalizedName, es[0].enabled)] + CleanFrom(seen + {Lower(normalizedName)}, es[1..])
      else
        CleanFrom(seen, es[1..])
  }

  /** The cleaning `loadState` and `setAllMacros` apply to a list of entries. */
  function Dedup(es: seq<MacroEntry>): seq<MacroEntry> {
    CleanFrom({}, es)
  }

  /** A stored list: every name trimmed and non-empty, no two names equal ignoring case. */
  predicate IsClean(ms: seq<MacroEntry>) {
    (forall k :: 0 <= k < |ms| ==> ms[k].name != [] && IsTrimmed(ms[k].name)) &&
    (forall j, k :: 0 <= j < k < |ms| ==> Lower(ms[j].name) != Lower(ms[k].name))
  }

  /** Entry `i` is the first one with its key, and its name is not blank. */
  predicate IsFirst(es: seq<MacroEntry>, i: int)
    requires 0 <= i < |es|
  {
    Trim(es[i].name) != [] && forall j :: 0 <= j < i ==> Key(es[j]) != Key(es[i])
  }

  /**
   * Reference definition of the cleaning, index by index: from position `lo` on,
   * keep entry `i` (with its name trimmed and its flag as it is) exactly when it
   * is the first entry with its key.
   */
  function KeptFrom(es: seq<MacroEntry>, lo: nat): seq<MacroEntry>
    requires lo <= |es|
    decreases |es| - lo
  {
    if lo == |es| then []
    else
      (if IsFirst(es, lo) then [MacroEntry(Trim(es[lo].name), es[lo].enabled)] else []) +
      KeptFrom(es, lo + 1)
  }

  /** The keys of the non-blank entries of `es`. */
  function KeySet(es: seq<MacroEntry>): set<string> {
    set j | 0 <= j < |es| && Trim(es[j].name) != [] :: Key(es[j])
  }

  /** `getAllMacros`' view of a list of entries. */
  function EntriesToPairs(ms: seq<MacroEntry>): (ps: seq<(string, bool)>)
    ensures |ps| == |ms|
    ensures forall k :: 0 <= k < |ms| ==> ps[k] == (ms[k].name, ms[k].enabled)
  {
    seq(|ms|, k requires 0 <= k < |ms| => (ms[k].name, ms[k].enabled))
  }

  /** The entries `setAllMacros` builds from its pairs, before cleaning. */
  function PairsToEntries(ps: seq<(string, bool)>): (ms: seq<MacroEntry>)
    ensures |ms| == |ps|
    ensures forall k :: 0 <= k < |ps| ==> ms[k] == MacroEntry(ps[k].0, ps[k].1)
  {
    seq(|ps|, k requires 0 <= k < |ps| => MacroEntry(ps[k].0, ps[k].1))
  }

  /** `getEnabledMacros`' view: the names, as stored, of the enabled entries. */
  function EnabledNames(ms: seq<MacroEntry>): set<string> {
    set k | 0 <= k < |ms| && ms[k].enabled :: ms[k].name
  }

  /** How many entries of `ms` are enabled. */
  function CountEnabled(ms: seq<MacroEntry>): nat {
    if ms == [] then 0 else CountEnabled(ms[..|ms| - 1]) + (if ms[|ms| - 1].enabled then 1 else 0)
  }

  // ---------------------------------------------------------------------------
  // The store
  // ---------------------------------------------------------------------------

  /** One iteration of the cleaning loop, stated on what has been kept so far. */
  lemma CleanLoopStep(kept: seq<MacroEntry>, seen: set<string>, es: seq<MacroEntry>, i: nat)
    requires i < |es|
    ensures var n := Trim(es[i].name);
            kept + CleanFrom(seen, es[i..]) ==
            if n != [] && Lower(n) !in seen then
              (kept + [MacroEntry(n, es[i].enabled)]) + CleanFrom(seen + {Lower(n)}, es[i + 1..])
            else kept + CleanFrom(seen, es[i + 1..])
  {
    assert es[i..][0] == es[i];
    assert es[i..][1..] == es[i + 1..];
  }

  class MacroCheckConfig {
    var state: State

    /** The stored list holds no blank, untrimmed or case-insensitively repeated name. */
    ghost predicate Valid()
      reads this
    {
      IsClean(state.whitelistMacros)
    }

    /** A fresh store holds the default state. */
    constructor ()
      ensures state == DefaultState()
      ensures Valid()
    {
      state := DefaultState();
      DefaultStateIsClean();
    }

    function GetState(): State
      reads this
    {
      state
    }

    /**
     * `loadState`: stores the cleaned entries of `incoming` and its switch (the
     * field-by-field copy of `copyBean`).
     */
    method LoadState(incoming: State)
      modifies this
      ensures state == State(Dedup(incoming.whitelistMacros), incoming.enableWhitelist)
      ensures Valid()
    {
      var entries := incoming.whitelistMacros;
      var uniqueMacros: seq<MacroEntry> := [];
      var seenNames: set<string> := {};
      for i := 0 to |entries|
        invariant uniqueMacros + CleanFrom(seenNames, entries[i..]) == Dedup(entries)
      {
        CleanLoopStep(uniqueMacros, seenNames, entries, i);
        var entry := entries[i];
        var normalizedName := Trim(entry.name);
        if normalizedName != [] && Lower(normalizedName) !in seenNames {
          seenNames := seenNames + {Lower(normalizedName)};
          uniqueMacros := uniqueMacros + [entry.(name := normalizedName)];
        }
      }
      assert entries[|entries|..] == [];
      state := State(uniqueMacros, incoming.enableWhitelist);
      DedupIsClean(entries);
    }

    /** `getEnabledMacros`: the names of the enabled entries, case as stored. */
    function GetEnabledMacros(): set<string>
      reads this
    {
      EnabledNames(state.whitelistMacros)
    }

    /** `getAllMacros`: one `(name, enabled)` pair per entry, in order. */
    function GetAllMacros(): seq<(string, bool)>
      reads this
    {
      EntriesToPairs(state.whitelistMacros)
    }

    /**
     * `setAllMacros`: replaces the list by the cleaned pairs; the switch is kept.
     */
    method SetAllMacros(macros: seq<(string, bool)>)
      modifies this
      ensures state == State(Dedup(PairsToEntries(macros)), old(state.enableWhitelist))
      ensures |state.whitelistMacros| <= |macros|
      ensures Valid()
    {
      ghost var entries := PairsToEntries(macros);
      var uniqueMacros: seq<MacroEntry> := [];
      var seenNames: set<string> := {};
      for i := 0 to |macros|
        invariant state == old(state)
        invariant uniqueMacros + CleanFrom(seenNames, entries[i..]) == Dedup(entries)
      {
        CleanLoopStep(uniqueMacros, seenNames, entries, i);
        var (name, enabled) := macros[i];
        assert entries[i] == MacroEntry(name, enabled);
        var normalizedName := Trim(name);
        if normalizedName != [] && Lower(normalizedName) !in seenNames {
          seenNames := seenNames + {Lower(normalizedName)};
          uniqueMacros := uniqueMacros + [MacroEntry(normalizedName, enabled)];
        }
      }
      assert entries[|macros|..] == [];
      state := state.(whitelistMacros := uniqueMacros);
      DedupIsClean(entries);
      DedupNoLonger(entries);
    }

    function IsEnableWhitelist(): bool
      reads this
    {
      state.enableWhitelist
    }

    method SetEnableWhitelist(enabled: bool)
      modifies this
      ensures IsEnableWhitelist() == enabled
      ensures state.whitelistMacros == old(state.whitelistMacros)
      ensures old(Valid()) ==> Valid()
    {
      state := state.(enableWhitelist := enabled);
    }
  }

  // ---------------------------------------------------------------------------
  // Properties of the entries
  // ---------------------------------------------------------------------------

  /** `equals` is an equivalence relation that ignores `enabled`. */
  lemma EqualsIsEquivalence(a: MacroEntry, b: MacroEntry, c: MacroEntry)
    ensures a.Equals(a)
    ensures a.Equals(b) ==> b.Equals(a)
    ensures a.Equals(b) && b.Equals(c) ==> a.Equals(c)
    ensures a.Equals(a.(enabled := !a.enabled))
  {
  }

  /** `hashCode` agrees with `equals`. */
  lemma HashCodeAgreesWithEquals(a: MacroEntry, b: MacroEntry)
    requires a.Equals(b)
    ensures a.HashCode() == b.HashCode()
  {
  }

  /** No two seed names are equal ignoring case. */
  lemma DefaultNamesDistinct()
    ensures forall j, k :: 0 <= j < k < |DefaultMacroNames| ==>
              Lower(DefaultMacroNames[j]) != Lower(DefaultMacroNames[k])
  {
    var names := DefaultMacroNames;
    forall j, k | 0 <= j < k < |names|
      ensures Lower(names[j]) != Lower(names[k])
    {
      // Equal lengths only among the 6- and 8-character names, which differ at index 0 and 2.
      LowerDiffers(names[j], names[k], if |names[j]| == 6 then 0 else 2);
    }
  }

  /** Every seed name is non-empty and has no surrounding whitespace. */
  lemma DefaultNamesTrimmed()
    ensures forall k :: 0 <= k < |DefaultMacroNames| ==>
              DefaultMacroNames[k] != [] && IsTrimmed(DefaultMacroNames[k])
  {
  }

  /** The default state: the ten seed names in order, each enabled, and whitelisting on. */
  lemma DefaultEntries()
    ensures DefaultState().enableWhitelist
    ensures |DefaultState().whitelistMacros| == |DefaultMacroNames| == 10
    ensures forall k :: 0 <= k < 10 ==>
              DefaultState().whitelistMacros[k] == MacroEntry(DefaultMacroNames[k], true)
  {
  }

  /** A list holding the seed names, all enabled, reports every seed name as enabled. */
  lemma EnabledDefaultNames(ms: seq<MacroEntry>)
    requires |ms| == |DefaultMacroNames|
    requires forall k :: 0 <= k < |ms| ==> ms[k] == MacroEntry(DefaultMacroNames[k], true)
    ensures EnabledNames(ms) == set n | n in DefaultMacroNames
  {
  }

  /** The default list is clean, and all ten seed names start out enabled. */
  lemma DefaultStateIsClean()
    ensures IsClean(DefaultState().whitelistMacros)
    ensures EnabledNames(DefaultState().whitelistMacros) == set n | n in DefaultMacroNames
  {
    var ms := DefaultState().whitelistMacros;
    DefaultEntries();
    DefaultNamesTrimmed();
    DefaultNamesDistinct();
    assert forall k :: 0 <= k < |ms| ==> ms[k].name == DefaultMacroNames[k];
    EnabledDefaultNames(ms);
  }

  // ---------------------------------------------------------------------------
  // Properties of the cleaning
  // ---------------------------------------------------------------------------

  /**
   * The cleaned list is clean, none of its keys was already `seen`, and it is
   * no longer than its input.
   */
  lemma {:induction false} CleanFromShape(seen: set<string>, es: seq<MacroEntry>)
    ensures var r := CleanFrom(seen, es);
            |r| <= |es| && IsClean(r) &&
            (forall k :: 0 <= k < |r| ==> Lower(r[k].name) !in seen)
    decreases |es|
  {
    if es != [] {
      var n := Trim(es[0].name);
      TrimIsTrimmed(es[0].name);
      if n != [] && Lower(n) !in seen {
        CleanFromShape(seen + {Lower(n)}, es[1..]);
      } else {
        CleanFromShape(seen, es[1..]);
      }
    }
  }

  /** After `loadState` or `setAllMacros` the stored names are trimmed, non-empty and distinct ignoring case. */
  lemma DedupIsClean(es: seq<MacroEntry>)
    ensures IsClean(Dedup(es))
  {
    CleanFromShape({}, es);
  }

  /** Cleaning never adds entries. */
  lemma DedupNoLonger(es: seq<MacroEntry>)
    ensures |Dedup(es)| <= |es|
  {
    CleanFromShape({}, es);
  }

  /** The keys of a prefix grow by the key of the next entry, if its name is not blank. */
  lemma KeySetStep(es: seq<MacroEntry>, lo: nat)
    requires lo < |es|
    ensures KeySet(es[..lo + 1]) ==
            KeySet(es[..lo]) + (if Trim(es[lo].name) != [] then {Key(es[lo])} else {})
  {
    var a, b := es[..lo], es[..lo + 1];
    assert forall j :: 0 <= j < lo ==> b[j] == a[j];
    assert b[lo] == es[lo];
  }

  /** An entry is the first with its key exactly when its key is not among the earlier keys. */
  lemma IsFirstIffNewKey(es: seq<MacroEntry>, lo: nat)
    requires lo < |es| && Trim(es[lo].name) != []
    ensures IsFirst(es, lo) <==> Key(es[lo]) !in KeySet(es[..lo])
  {
    LowerEmpty(Trim(es[lo].name));
    if Key(es[lo]) in KeySet(es[..lo]) {
      var j :| 0 <= j < lo && Trim(es[..lo][j].name) != [] && Key(es[..lo][j]) == Key(es[lo]);
      assert es[..lo][j] == es[j];
    } else {
      forall j | 0 <= j < lo
        ensures Key(es[j]) != Key(es[lo])
      {
        assert es[..lo][j] == es[j];
        LowerEmpty(Trim(es[j].name));
      }
    }
  }

  /** One step of the cleaning, phrased with the keys of the prefix already passed. */
  lemma CleanFromStep(es: seq<MacroEntry>, lo: nat)
    requires lo < |es|
    ensures CleanFrom(KeySet(es[..lo]), es[lo..]) ==
            (if IsFirst(es, lo) then [MacroEntry(Trim(es[lo].name), es[lo].enabled)] else []) +
            CleanFrom(KeySet(es[..lo + 1]), es[lo + 1..])
  {
    var seen := KeySet(es[..lo]);
    var n := Trim(es[lo].name);
    assert es[lo..][0] == es[lo];
    assert es[lo..][1..] == es[lo + 1..];
    assert CleanFrom(seen, es[lo..]) ==
           if n != [] && Lower(n) !in seen
           then [MacroEntry(n, es[lo].enabled)] + CleanFrom(seen + {Lower(n)}, es[lo + 1..])
           else CleanFrom(seen, es[lo + 1..]);
    KeySetStep(es, lo);
    if n == [] {
      assert !IsFirst(es, lo);
      assert KeySet(es[..lo + 1]) == seen;
    } else {
      IsFirstIffNewKey(es, lo);
      assert Key(es[lo]) == Lower(n);
      assert KeySet(es[..lo + 1]) == seen + {Lower(n)};
      if Lower(n) in seen {
        assert seen + {Lower(n)} == seen;
        assert !IsFirst(es, lo);
      } else {
        assert IsFirst(es, lo);
      }
    }
  }

  /** The loop's cleaning agrees with the index-by-index reference definition. */
  lemma {:induction false} CleanFromIsKeptFrom(es: seq<MacroEntry>, lo: nat)
    requires lo <= |es|
    ensures CleanFrom(KeySet(es[..lo]), es[lo..]) == KeptFrom(es, lo)
    decreases |es| - lo
  {
    if lo < |es| {
      CleanFromStep(es, lo);
      CleanFromIsKeptFrom(es, lo + 1);
    }
  }

  /**
   * First wins, order kept: the cleaned list holds, in input order, exactly the
   * entries whose trimmed name is non-empty and whose key no earlier entry has,
   * each with its name trimmed and its own `enabled` flag.
   */
  lemma DedupKeepsFirsts(es: seq<MacroEntry>)
    ensures Dedup(es) == KeptFrom(es, 0)
  {
    assert KeySet(es[..0]) == {};
    assert es[0..] == es;
    CleanFromIsKeptFrom(es, 0);
  }

  /** No non-blank name is lost: some stored entry has its key. */
  lemma {:induction false} CleanFromCovers(seen: set<string>, es: seq<MacroEntry>, i: nat)
    requires i < |es| && Trim(es[i].name) != []
    ensures Key(es[i]) in seen ||
            exists k :: 0 <= k < |CleanFrom(seen, es)| && Lower(CleanFrom(seen, es)[k].name) == Key(es[i])
    decreases |es|
  {
    var n := Trim(es[0].name);
    var added := n != [] && Lower(n) !in seen;
    if added && (i == 0 || Key(es[i]) == Lower(n)) {
      CleanFromKeepsHead(seen, es);
    } else if i != 0 && Key(es[i]) !in seen {
      var seen' := if added then seen + {Lower(n)} else seen;
      var r' := CleanFrom(seen', es[1..]);
      assert es[1..][i - 1] == es[i];
      CleanFromCovers(seen', es[1..], i - 1);
      var k :| 0 <= k < |r'| && Lower(r'[k].name) == Key(es[i]);
      CleanFromKeepsTail(seen, es, k);
    }
  }

  /** When the first entry is kept, it heads the cleaned list, trimmed. */
  lemma CleanFromKeepsHead(seen: set<string>, es: seq<MacroEntry>)
    requires es != [] && Trim(es[0].name) != [] && Lower(Trim(es[0].name)) !in seen
    ensures |CleanFrom(seen, es)| > 0 && CleanFrom(seen, es)[0].name == Trim(es[0].name)
  {
  }

  /** The cleaned rest of the list reappears in the cleaned list, shifted by one when the head is kept. */
  lemma CleanFromKeepsTail(seen: set<string>, es: seq<MacroEntry>, k: nat)
    requires es != []
    requires var n := Trim(es[0].name);
             k < |CleanFrom(if n != [] && Lower(n) !in seen then seen + {Lower(n)} else seen, es[1..])|
    ensures var n := Trim(es[0].name);
            var added := n != [] && Lower(n) !in seen;
            var k' := if added then k + 1 else k;
            k' < |CleanFrom(seen, es)| &&
            CleanFrom(seen, es)[k'] == CleanFrom(if added then seen + {Lower(n)} else seen, es[1..])[k]
  {
  }

  /** Every non-blank input name is represented, ignoring case, in the cleaned list. */
  lemma DedupCovers(es: seq<MacroEntry>, i: nat)
    requires i < |es| && Trim(es[i].name) != []
    ensures exists k :: 0 <= k < |Dedup(es)| && Lower(Dedup(es)[k].name) == Key(es[i])
  {
    CleanFromCovers({}, es, i);
    var k :| 0 <= k < |CleanFrom({}, es)| && Lower(CleanFrom({}, es)[k].name) == Key(es[i]);
    assert Lower(Dedup(es)[k].name) == Key(es[i]);
  }

  /** A clean list whose keys avoid `seen` passes through unchanged. */
  lemma {:induction false} CleanFromOfClean(seen: set<string>, ms: seq<MacroEntry>)
    requires IsClean(ms)
    requires forall k :: 0 <= k < |ms| ==> Lower(ms[k].name) !in seen
    ensures CleanFrom(seen, ms) == ms
    decreases |ms|
  {
    if ms != [] {
      TrimOfTrimmed(ms[0].name);
      var rest := ms[1..];
      assert forall k :: 0 <= k < |rest| ==> rest[k] == ms[k + 1];
      CleanFromOfClean(seen + {Lower(ms[0].name)}, rest);
      assert ms == [MacroEntry(ms[0].name, ms[0].enabled)] + rest;
    }
  }

  /** Cleaning a clean list changes nothing; in particular cleaning twice is cleaning once. */
  lemma DedupIdempotent(es: seq<MacroEntry>)
    ensures IsClean(es) ==> Dedup(es) == es
    ensures Dedup(Dedup(es)) == Dedup(es)
  {
    if IsClean(es) {
      CleanFromOfClean({}, es);
    }
    DedupIsClean(es);
    CleanFromOfClean({}, Dedup(es));
  }

  /**
   * Handing `getAllMacros` back to `setAllMacros` leaves a clean store as it was.
   */
  lemma AllMacrosRoundTrip(ms: seq<MacroEntry>)
    requires IsClean(ms)
    ensures Dedup(PairsToEntries(EntriesToPairs(ms))) == ms
  {
    assert PairsToEntries(EntriesToPairs(ms)) == ms;
    CleanFromOfClean({}, ms);
  }

  /** Every prefix of a clean list is clean. */
  lemma CleanPrefix(ms: seq<MacroEntry>, n: nat)
    requires IsClean(ms) && n <= |ms|
    ensures IsClean(ms[..n])
  {
    assert forall k :: 0 <= k < n ==> ms[..n][k] == ms[k];
  }

  /** Appending an entry adds its name to the enabled names exactly when it is enabled. */
  lemma EnabledNamesSnoc(ms: seq<MacroEntry>)
    requires ms != []
    ensures EnabledNames(ms) == EnabledNames(ms[..|ms| - 1]) +
              (if ms[|ms| - 1].enabled then {ms[|ms| - 1].name} else {})
  {
    var p := ms[..|ms| - 1];
    assert forall k :: 0 <= k < |p| ==> p[k] == ms[k];
  }

  /** In a clean list the last name is not among the names before it. */
  lemma LastNameIsNew(ms: seq<MacroEntry>)
    requires IsClean(ms) && ms != []
    ensures ms[|ms| - 1].name !in EnabledNames(ms[..|ms| - 1])
  {
    var p := ms[..|ms| - 1];
    forall k | 0 <= k < |p|
      ensures p[k].name != ms[|ms| - 1].name
    {
      assert p[k] == ms[k];
    }
  }

  /**
   * On a clean list the enabled-name set loses nothing: it has one name per
   * enabled entry.
   */
  lemma {:induction false} EnabledNamesCount(ms: seq<MacroEntry>)
    requires IsClean(ms)
    ensures |EnabledNames(ms)| == CountEnabled(ms)
    decreases |ms|
  {
    if ms != [] {
      CleanPrefix(ms, |ms| - 1);
      EnabledNamesCount(ms[..|ms| - 1]);
      EnabledNamesSnoc(ms);
      LastNameIsNew(ms);
    }
  }
}
