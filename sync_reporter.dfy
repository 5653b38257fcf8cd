/** The reporter variant of the engine: it keeps a negative cache of the glyphs
    without metrics keys, finds the dependents of the active glyph by scanning
    the whole font for keys that mention its name, and propagates only after a
    switch to another glyph. */
module SyncReporter {

  import opened Wrappers
  import opened Seqs
  import opened Font

  // ---------------------------------------------------------------------------
  // Dependents by linear scan (`findGlyphsWithMetricsKey`)

  /** One side of a glyph refers to `name`: the search for
      `[^a-zA-Z]*(name)+[^a-zA-Z]*` succeeds in the key, or the key is `name`.
      Both guards may match nothing, so the search succeeds exactly when `name`
      occurs in the key. */
  predicate SideRefers(key: Option<string>, name: string) {
    key.Some? && (Contains(key.value, name) || key.value == name)
  }

  /** A side refers to `name` exactly when its key holds `name` as a substring;
      the equality test adds nothing. */
  lemma SideRefersIsContainment(key: Option<string>, name: string)
    ensures SideRefers(key, name) <==> key.Some? && exists i :: OccursAt(key.value, name, i)
  {
    if key.Some? {
      ContainsIff(key.value, name);
      if key.value == name {
        assert OccursAt(key.value, name, 0);
      }
    }
  }

  /** Letters next to the name do not prevent a match: the key `ntilde` refers
      to the glyph `n`. */
  lemma NtildeRefersToN()
    ensures SideRefers(Some("ntilde"), "n")
  {
    assert OccursAt("ntilde", "n", 0);
    ContainsIff("ntilde", "n");
  }

  /** What one glyph of the scan contributes: nothing when it is the key glyph
      itself or known to have no keys, otherwise itself once per referring side. */
  function Hits(g: Glyph, name: string, without: seq<string>): (r: seq<Glyph>)
    ensures |r| <= 2
    ensures forall k :: 0 <= k < |r| ==> r[k] == g
  {
    if g.name == name || g.name in without then []
    else (if SideRefers(g.leftKey, name) then [g] else []) + (if SideRefers(g.rightKey, name) then [g] else [])
  }

  /** The glyphs the scan returns for the key glyph `name`, in font order. */
  function Referencing(font: seq<Glyph>, name: string, without: seq<string>): seq<Glyph>
    decreases |font|
  {
    if font == [] then []
    else Referencing(font[..|font| - 1], name, without) + Hits(font[|font| - 1], name, without)
  }

  /** The scan returns exactly the glyphs of the font, other than the key glyph
      and the glyphs known to have no keys, that refer to the key on some side. */
  lemma {:induction false} ReferencingMembers(font: seq<Glyph>, name: string, without: seq<string>)
    ensures forall g :: g in Referencing(font, name, without) <==>
      && g in font
      && g.name != name
      && g.name !in without
      && (SideRefers(g.leftKey, name) || SideRefers(g.rightKey, name))
    decreases |font|
  {
    if font != [] {
      var n := |font| - 1;
      ReferencingMembers(font[..n], name, without);
      assert font == font[..n] + [font[n]];
      forall g ensures g in font <==> g in font[..n] || g == font[n] {
      }
    }
  }

  /** The scan follows font order: scanning two runs of glyphs returns the
      results for the first run, then those of the second. */
  lemma {:induction false} ReferencingAppend(a: seq<Glyph>, b: seq<Glyph>, name: string, without: seq<string>)
    ensures Referencing(a + b, name, without) == Referencing(a, name, without) + Referencing(b, name, without)
    decreases |b|
  {
    if b == [] {
      assert a + b == a;
    } else {
      var n := |b| - 1;
      assert (a + b)[..|a + b| - 1] == a + b[..n];
      assert (a + b)[|a + b| - 1] == b[n];
      ReferencingAppend(a, b[..n], name, without);
      var ra, rb := Referencing(a, name, without), Referencing(b[..n], name, without);
      var h := Hits(b[n], name, without);
      assert Referencing(a + b, name, without) == (ra + rb) + h;
      assert Referencing(b, name, without) == rb + h;
      assert (ra + rb) + h == ra + (rb + h);
    }
  }

  /** How often one glyph's own contribution holds `g`. */
  lemma HitsCount(h: Glyph, name: string, without: seq<string>, g: Glyph)
    ensures multiset(Hits(h, name, without))[g] == if h == g then |Hits(h, name, without)| else 0
  {
    var r := Hits(h, name, without);
    assert r == [] || r == [h] || r == [h, h];
  }

  /** Skipping the glyphs in the negative cache is only a shortcut: when every
      glyph it names has no keys, the scan finds what it finds without it. */
  lemma {:induction false} NegativeCacheSound(font: seq<Glyph>, name: string, without: seq<string>)
    requires forall i :: 0 <= i < |font| && font[i].name in without ==> !HasMetricsKeys(font[i])
    ensures Referencing(font, name, without) == Referencing(font, name, [])
    decreases |font|
  {
    if font != [] {
      var n := |font| - 1;
      var last := font[n];
      NegativeCacheSound(font[..n], name, without);
      if last.name != name && last.name in without {
        assert !HasMetricsKeys(last);
        assert Hits(last, name, []) == [];
      }
      assert Hits(last, name, without) == Hits(last, name, []);
    }
  }

  /** A glyph is returned once per referring side for each time it occurs in
      the font, so at most twice for a glyph that occurs once. */
  lemma {:induction false} ReferencingCount(font: seq<Glyph>, name: string, without: seq<string>, g: Glyph)
    ensures multiset(Referencing(font, name, without))[g] == multiset(font)[g] * |Hits(g, name, without)|
    decreases |font|
  {
    if font != [] {
      var n := |font| - 1;
      var prefix, last := font[..n], font[n];
      ReferencingCount(prefix, name, without, g);
      CountSnoc(font, g);
      MultisetSnoc(Referencing(prefix, name, without), Hits(last, name, without), g);
      HitsCount(last, name, without, g);
      ScaleStep(multiset(font)[g], multiset(prefix)[g], |Hits(g, name, without)|, last == g);
    }
  }

  /** Counting in a concatenation. */
  lemma MultisetSnoc<T>(a: seq<T>, b: seq<T>, x: T)
    ensures multiset(a + b)[x] == multiset(a)[x] + multiset(b)[x]
  {
  }

  /** Counting in a non-empty sequence: its prefix, then its last element. */
  lemma CountSnoc<T>(s: seq<T>, x: T)
    requires |s| > 0
    ensures multiset(s)[x] == multiset(s[..|s| - 1])[x] + (if s[|s| - 1] == x then 1 else 0)
  {
    SplitLast(s);
    MultisetSnoc(s[..|s| - 1], [s[|s| - 1]], x);
  }

  /** One more occurrence adds one more share of `c`. */
  lemma ScaleStep(k: int, m: int, c: int, more: bool)
    requires k == m + (if more then 1 else 0)
    ensures k * c == m * c + (if more then c else 0)
  {
    if more {
      assert (m + 1) * c == m * c + c;
    }
  }

  // ---------------------------------------------------------------------------
  // The negative cache (`glyphsWithoutMetricsKeys`)

  /** The names of the glyphs with neither key, in font order. */
  function NoKeyNames(font: seq<Glyph>): seq<string>
    decreases |font|
  {
    if font == [] then []
    else
      var g := font[|font| - 1];
      NoKeyNames(font[..|font| - 1]) + (if !HasMetricsKeys(g) then [g.name] else [])
  }

  /** Glyph `i` of the font is named `x` and has no keys. */
  predicate KeylessAt(font: seq<Glyph>, i: int, x: string) {
    0 <= i < |font| && font[i].name == x && !HasMetricsKeys(font[i])
  }

  /** The negative cache built from a font lists a name exactly when some glyph
      of that name has no keys. */
  lemma {:induction false} NoKeyNamesMember(font: seq<Glyph>, x: string)
    ensures x in NoKeyNames(font) <==> exists i :: KeylessAt(font, i, x)
    decreases |font|
  {
    if font != [] {
      var n := |font| - 1;
      var prefix := font[..n];
      NoKeyNamesMember(prefix, x);
      if x in NoKeyNames(font) {
        if x in NoKeyNames(prefix) {
          var i :| KeylessAt(prefix, i, x);
          assert KeylessAt(font, i, x);
        } else {
          assert KeylessAt(font, n, x);
        }
      } else {
        forall i | KeylessAt(font, i, x)
          ensures false
        {
          if i < n {
            assert KeylessAt(prefix, i, x);
          }
        }
      }
    }
  }

  /** Built from a font with unique names, the negative cache has no duplicates. */
  lemma {:induction false} NoKeyNamesNoDup(font: seq<Glyph>)
    requires UniqueNames(font)
    ensures NoDup(NoKeyNames(font))
    decreases |font|
  {
    if font != [] {
      var n := |font| - 1;
      var prefix := font[..n];
      assert UniqueNames(prefix);
      NoKeyNamesNoDup(prefix);
      var tail := if !HasMetricsKeys(font[n]) then [font[n].name] else [];
      forall y | y in NoKeyNames(prefix) ensures y !in tail {
        NoKeyNamesMember(prefix, y);
        var i :| KeylessAt(prefix, i, y);
        assert font[i].name != font[n].name;
      }
      AppendFreshNoDup(NoKeyNames(prefix), tail);
    }
  }

  /** `cacheGlyphKeys(glyph)` on the negative cache: a glyph with keys is
      removed (first occurrence), a glyph without is appended unless present. */
  function NegRefresh(without: seq<string>, g: Glyph): seq<string> {
    if HasMetricsKeys(g) then
      (if g.name in without then RemoveFirst(without, g.name) else without)
    else
      (if g.name in without then without else without + [g.name])
  }

  /** After `cacheGlyphKeys(glyph)` the glyph is listed exactly when it has no
      keys, every other entry stays, and a list without duplicates keeps none. */
  lemma NegRefreshExact(without: seq<string>, g: Glyph)
    requires NoDup(without)
    ensures var r := NegRefresh(without, g);
      && NoDup(r)
      && (g.name in r <==> !HasMetricsKeys(g))
      && (forall x :: x != g.name ==> (x in r <==> x in without))
  {
    if HasMetricsKeys(g) {
      RemoveFirstOfNoDup(without, g.name);
      RemoveNoDup(without, g.name);
    } else if g.name !in without {
      AppendFreshNoDup(without, [g.name]);
    }
  }

  // ---------------------------------------------------------------------------
  // The change monitor's decision (`foreground`, drawing-layer part)

  /** The switch rule of both variants; on the same glyph only a keyed side whose
      bearing differs counts, and then both snapshots are overwritten and the
      layer re-synced, but no update is flagged. */
  function ReporterReaction(s: Snapshot, layer: Layer): Reaction {
    var g := layer.parent;
    if IsSwitch(s, layer) then SwitchReaction(s, layer)
    else if (g.leftKey.Some? && s.lsb != layer.lsb) || (g.rightKey.Some? && s.rsb != layer.rsb) then
      Reaction(Snapshot(s.glyph, layer.lsb, layer.rsb), 1, false)
    else Reaction(s, 0, false)
  }

  /** The reporter flags an update only on a glyph switch; on the same glyph it
      re-syncs exactly when a keyed side's bearing differs from its snapshot. */
  lemma ReporterSameGlyph(s: Snapshot, layer: Layer)
    ensures ReporterReaction(s, layer).update ==> IsSwitch(s, layer)
    ensures !IsSwitch(s, layer) ==>
      var r := ReporterReaction(s, layer);
      var g := layer.parent;
      && (r.localSyncs == 1 <==> (g.leftKey.Some? && s.lsb != layer.lsb) || (g.rightKey.Some? && s.rsb != layer.rsb))
      && (r.localSyncs == 1 ==> r.next == Snapshot(Some(g.name), layer.lsb, layer.rsb))
      && (r.localSyncs != 1 ==> r == Reaction(s, 0, false))
  {
  }

  /** When the reporter propagates: only after a switch, and then exactly when
      an unkeyed side's reported bearing moved. */
  lemma ReporterPropagates(s: Snapshot, layer: Layer)
    ensures var g := layer.parent;
      ReporterReaction(s, layer).update <==>
        IsSwitch(s, layer) &&
        ((Moved(s.lsb, layer.lsb) && g.leftKey.None?) || (Moved(s.rsb, layer.rsb) && g.rightKey.None?))
  {
  }

  /** With the layer unchanged, the reporter's second tick on a glyph leaves a
      snapshot the third tick does not react to. */
  lemma ReporterSettles(s: Snapshot, layer: Layer)
    ensures ReporterReaction(s, layer).next.glyph == Some(layer.parent.name)
    ensures var r2 := ReporterReaction(ReporterReaction(s, layer).next, layer);
      ReporterReaction(r2.next, layer) == Reaction(r2.next, 0, false)
  {
  }

  /** On the same glyph the reporter ignores its unkeyed sides: when no keyed side
      differs, a changed unkeyed bearing leaves the snapshot stale and nothing
      happens. */
  lemma ReporterIgnoresFreeEdit(s: Snapshot, layer: Layer)
    requires !IsSwitch(s, layer)
    requires layer.parent.leftKey.Some? ==> s.lsb == layer.lsb
    requires layer.parent.rightKey.Some? ==> s.rsb == layer.rsb
    ensures ReporterReaction(s, layer) == Reaction(s, 0, false)
  {
  }

  // ---------------------------------------------------------------------------
  // The reporter object

  class MetricsAutoUpdate {
    var lastGlyph: Option<string>
    var lastLSB: Option<int>
    var lastRSB: Option<int>
    var glyphsWithoutMetricsKeys: seq<string>
    var glyphsCached: bool
    /** The glyphs whose layer `syncMetrics` the host was asked to run, in order. */
    var syncLog: seq<string>

    /** Until the first build the negative cache is the empty list `start` made,
        and it never lists a glyph twice. */
    ghost predicate Valid()
      reads this
    {
      && (!glyphsCached ==> glyphsWithoutMetricsKeys == [])
      && NoDup(glyphsWithoutMetricsKeys)
    }

    function Snap(): Snapshot
      reads this
    {
      Snapshot(lastGlyph, lastLSB, lastRSB)
    }

    /** The state `start` sets up. */
    constructor ()
      ensures Valid()
      ensures lastGlyph == None && lastLSB == None && lastRSB == None
      ensures glyphsWithoutMetricsKeys == [] && !glyphsCached && syncLog == []
    {
      lastGlyph, lastLSB, lastRSB := None, None, None;
      glyphsWithoutMetricsKeys := [];
      glyphsCached := false;
      syncLog := [];
    }

    /** `syncGlyphMetrics(glyph)`: the active master's layer of the glyph is
        re-synced; a failed layer lookup is swallowed. */
    method SyncGlyphMetrics(g: string, available: set<string>)
      modifies this`syncLog
      ensures syncLog == old(syncLog) + (if g in available then [g] else [])
    {
      if g in available {
        syncLog := syncLog + [g];
      }
    }

    /** `findGlyphsWithMetricsKey(key)`: the glyphs of the font whose keys refer
        to the key glyph's name, once per referring side, in font order. */
    method FindGlyphsWithMetricsKey(key: Glyph, font: seq<Glyph>) returns (referencedGlyphs: seq<Glyph>)
      ensures referencedGlyphs == Referencing(font, key.name, glyphsWithoutMetricsKeys)
      ensures forall k :: 0 <= k < |referencedGlyphs| ==>
        referencedGlyphs[k].name != key.name && referencedGlyphs[k].name !in glyphsWithoutMetricsKeys
    {
      referencedGlyphs := [];
      for i := 0 to |font|
        invariant referencedGlyphs == Referencing(font[..i], key.name, glyphsWithoutMetricsKeys)
      {
        var glyph := font[i];
        PrefixStep(font, i);
        assert font[..i + 1][..i] == font[..i];
        if glyph.name == key.name {
          continue;
        }
        if glyph.name in glyphsWithoutMetricsKeys {
          continue;
        }
        if glyph.leftKey.Some? {
          if Contains(glyph.leftKey.value, key.name) || glyph.leftKey.value == key.name {
            referencedGlyphs := referencedGlyphs + [glyph];
          }
        }
        if glyph.rightKey.Some? {
          if Contains(glyph.rightKey.value, key.name) || glyph.rightKey.value == key.name {
            referencedGlyphs := referencedGlyphs + [glyph];
          }
        }
      }
      assert font[..|font|] == font;
      ReferencingMembers(font, key.name, glyphsWithoutMetricsKeys);
    }

    /** `updateMetrics(layer)`: every glyph the scan finds is re-synced once per
        appearance, in the order found. */
    method UpdateMetrics(layer: Layer, font: seq<Glyph>, available: set<string>)
      modifies this`syncLog
      ensures syncLog == old(syncLog) +
        Available(Names(Referencing(font, layer.parent.name, glyphsWithoutMetricsKeys)), available)
    {
      var glyph := layer.parent;
      var linkedGlyphs := FindGlyphsWithMetricsKey(glyph, font);
      ghost var names := Names(linkedGlyphs);
      if |linkedGlyphs| > 0 {
        for i := 0 to |linkedGlyphs|
          invariant syncLog == old(syncLog) + Available(names[..i], available)
        {
          assert linkedGlyphs[i].name == names[i];
          AvailableStep(names, i, available);
          SyncGlyphMetrics(linkedGlyphs[i].name, available);
        }
        assert names[..|names|] == names;
      }
    }

    /** `cacheAllGlyphKeys`: the names of the glyphs without keys are appended
        in font order, then the cache is marked as built. */
    method CacheAllGlyphKeys(font: seq<Glyph>)
      modifies this`glyphsWithoutMetricsKeys, this`glyphsCached
      ensures glyphsCached
      ensures glyphsWithoutMetricsKeys == old(glyphsWithoutMetricsKeys) + NoKeyNames(font)
      ensures old(glyphsWithoutMetricsKeys) == [] ==>
        forall x :: x in glyphsWithoutMetricsKeys <==> exists i :: KeylessAt(font, i, x)
      ensures old(glyphsWithoutMetricsKeys) == [] && UniqueNames(font) ==> NoDup(glyphsWithoutMetricsKeys)
    {
      for i := 0 to |font|
        invariant glyphsWithoutMetricsKeys == old(glyphsWithoutMetricsKeys) + NoKeyNames(font[..i])
      {
        var glyph := font[i];
        PrefixStep(font, i);
        assert font[..i + 1][..i] == font[..i];
        if glyph.leftKey.None? && glyph.rightKey.None? {
          glyphsWithoutMetricsKeys := glyphsWithoutMetricsKeys + [glyph.name];
        }
      }
      assert font[..|font|] == font;
      glyphsCached := true;
      if old(glyphsWithoutMetricsKeys) == [] {
        assert glyphsWithoutMetricsKeys == NoKeyNames(font);
        forall x
          ensures x in glyphsWithoutMetricsKeys <==> exists i :: KeylessAt(font, i, x)
        {
          NoKeyNamesMember(font, x);
        }
        if UniqueNames(font) {
          NoKeyNamesNoDup(font);
        }
      }
    }

    /** `cacheGlyphKeys(glyph)`: bring the glyph's entry of the negative cache
        up to date. */
    method CacheGlyphKeys(g: Glyph)
      modifies this`glyphsWithoutMetricsKeys
      ensures glyphsWithoutMetricsKeys == NegRefresh(old(glyphsWithoutMetricsKeys), g)
      ensures NoDup(old(glyphsWithoutMetricsKeys)) ==>
        && NoDup(glyphsWithoutMetricsKeys)
        && (g.name in glyphsWithoutMetricsKeys <==> !HasMetricsKeys(g))
        && (forall x :: x != g.name ==> (x in glyphsWithoutMetricsKeys <==> x in old(glyphsWithoutMetricsKeys)))
    {
      if NoDup(glyphsWithoutMetricsKeys) {
        NegRefreshExact(glyphsWithoutMetricsKeys, g);
      }
      if HasMetricsKeys(g) {
        if g.name in glyphsWithoutMetricsKeys {
          glyphsWithoutMetricsKeys := RemoveFirst(glyphsWithoutMetricsKeys, g.name);
        }
      } else {
        if g.name !in glyphsWithoutMetricsKeys {
          glyphsWithoutMetricsKeys := glyphsWithoutMetricsKeys + [g.name];
        }
      }
    }

    /** The snapshot part of `foreground` on a drawing layer: the snapshot and
        the local re-syncs follow `ReporterReaction`, and the result says
        whether the dependents are to be updated. */
    method TrackBearings(layer: Layer) returns (update: bool)
      modifies this`lastGlyph, this`lastLSB, this`lastRSB, this`syncLog
      ensures var r := ReporterReaction(old(Snap()), layer);
        && Snap() == r.next
        && update == r.update
        && syncLog == old(syncLog) + Repeat(layer.parent.name, r.localSyncs)
    {
      var glyph := layer.parent;
      update := false;
      if Some(glyph.name) != lastGlyph || lastGlyph.None? {
        lastGlyph := Some(glyph.name);
        if layer.lsb.Some? {
          if lastLSB != layer.lsb {
            if glyph.leftKey.None? {
              lastLSB := layer.lsb;
              update := true;
            } else {
              syncLog := syncLog + [glyph.name];  // layer.syncMetrics()
            }
          }
        }
        if layer.rsb.Some? {
          if lastRSB != layer.rsb {
            if glyph.rightKey.None? {
              lastRSB := layer.rsb;
              update := true;
            } else {
              syncLog := syncLog + [glyph.name];  // layer.syncMetrics()
            }
          }
        }
      } else {
        if (glyph.leftKey.Some? && lastLSB != layer.lsb) || (glyph.rightKey.Some? && lastRSB != layer.rsb) {
          lastLSB := layer.lsb;
          lastRSB := layer.rsb;
          syncLog := syncLog + [glyph.name];  // layer.syncMetrics()
        }
      }
    }

    /** `foreground(layer)`, the redraw hook. The negative cache is built on the
        first tick and refreshed for the active glyph on every later one; a
        background layer stops there; a drawing layer updates the snapshot and
        the sync log as `ReporterReaction` decides, re-syncing the dependents
        found by the scan when an update is flagged. */
    method Foreground(layer: Layer, font: seq<Glyph>, available: set<string>)
      requires Valid() && UniqueNames(font)
      modifies this
      ensures Valid() && glyphsCached
      ensures glyphsWithoutMetricsKeys ==
        if old(glyphsCached) then NegRefresh(old(glyphsWithoutMetricsKeys), layer.parent) else NoKeyNames(font)
      ensures old(glyphsCached) ==> (layer.parent.name in glyphsWithoutMetricsKeys <==> !HasMetricsKeys(layer.parent))
      ensures !layer.isGSLayer ==> Snap() == old(Snap()) && syncLog == old(syncLog)
      ensures layer.isGSLayer ==>
        var r := ReporterReaction(old(Snap()), layer);
        var name := layer.parent.name;
        && Snap() == r.next
        && syncLog == old(syncLog) + Repeat(name, r.localSyncs) +
             (if r.update then Available(Names(Referencing(font, name, glyphsWithoutMetricsKeys)), available) else [])
    {
      var glyph := layer.parent;

      if !glyphsCached {
        CacheAllGlyphKeys(font);
      } else {
        CacheGlyphKeys(glyph);
      }

      if !layer.isGSLayer {
        return;
      }

      var update := TrackBearings(layer);
      if update {
        UpdateMetrics(layer, font, available);
      }
    }
  }
}
