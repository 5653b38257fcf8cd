/** The general-plugin variant of the engine: it keeps a reverse-dependency
    cache from each referenced name to the glyphs whose metrics keys mention
    it, refreshes a glyph's entries by purge-then-reinsert, and on a change
    of the active layer's bearings re-syncs the glyphs cached under its name. */
module SyncPlugin {

  import opened Wrappers
  import opened Seqs
  import opened Font
  import opened KeyTokens

  // ---------------------------------------------------------------------------
  // Key extraction (`getGlyphMetricsKeys`)

  /** The tokens of one metrics key; an absent key contributes none. */
  function SideTokens(key: Option<string>): (r: seq<string>)
    ensures key.None? ==> r == []
    ensures forall t :: t in r ==> IsToken(t)
  {
    if key.Some? then FindAll(key.value) else []
  }

  /** The names a glyph's keys refer to: the left key's tokens, then the right
      key's, duplicates kept. */
  function GetGlyphMetricsKeys(g: Glyph): (r: seq<string>)
    ensures !HasMetricsKeys(g) ==> r == []
    ensures forall t :: t in r ==> IsToken(t)
    ensures |r| == |SideTokens(g.leftKey)| + |SideTokens(g.rightKey)|
    ensures forall t :: t in r <==> t in SideTokens(g.leftKey) || t in SideTokens(g.rightKey)
  {
    SideTokens(g.leftKey) + SideTokens(g.rightKey)
  }

  // ---------------------------------------------------------------------------
  // The cache as a value (`self.cache`): referenced name -> dependent glyph names

  type Index = map<string, seq<string>>

  /** No list of the cache holds a glyph twice. */
  predicate NoDupLists(c: Index) {
    forall k :: k in c ==> NoDup(c[k])
  }

  /** `purgeLinkFromCache(glyph)`: the glyph leaves every list; no key is dropped. */
  function Purged(c: Index, name: string): Index {
    map k | k in c :: Remove(c[k], name)
  }

  /** `cacheGlyphKeys(glyph)` when the glyph refers to `links`: purged from every
      list, then appended once to the list of each referenced name, creating
      the lists that do not exist yet. */
  function Refresh(c: Index, name: string, links: seq<string>): Index {
    map k | k in c.Keys + (set t | t in links) ::
      (if k in c then Remove(c[k], name) else []) + (if k in links then [name] else [])
  }

  /** `cacheAllGlyphKeys`: every glyph of the font refreshed, in font order. */
  function RefreshAll(c: Index, font: seq<Glyph>): Index
    decreases |font|
  {
    if font == [] then c
    else
      var g := font[|font| - 1];
      Refresh(RefreshAll(c, font[..|font| - 1]), g.name, GetGlyphMetricsKeys(g))
  }

  /** After a refresh the glyph is listed under a name exactly when its keys
      refer to that name, every referenced name has a list, and no key is lost. */
  lemma RefreshIndexes(c: Index, name: string, links: seq<string>)
    ensures var r := Refresh(c, name, links);
      && r.Keys == c.Keys + (set t | t in links)
      && (forall k :: k in r ==> (name in r[k] <==> k in links))
  {
  }

  /** A refresh changes no other glyph's membership in any list. */
  lemma RefreshFrame(c: Index, name: string, links: seq<string>)
    ensures var r := Refresh(c, name, links);
      forall k, x :: x != name ==> (k in r && x in r[k] <==> k in c && x in c[k])
  {
  }

  /** A refresh keeps every list free of duplicates. */
  lemma RefreshNoDup(c: Index, name: string, links: seq<string>)
    requires NoDupLists(c)
    ensures NoDupLists(Refresh(c, name, links))
  {
    var r := Refresh(c, name, links);
    forall k | k in r ensures NoDup(r[k]) {
      var base := if k in c then Remove(c[k], name) else [];
      if k in c {
        RemoveNoDup(c[k], name);
      }
      AppendFreshNoDup(base, if k in links then [name] else []);
    }
  }

  /** Refreshing the same glyph twice gives the very cache the first refresh gave. */
  lemma RefreshIdempotent(c: Index, name: string, links: seq<string>)
    ensures Refresh(Refresh(c, name, links), name, links) == Refresh(c, name, links)
  {
    var r1 := Refresh(c, name, links);
    var r2 := Refresh(r1, name, links);
    forall k | k in r2 ensures k in r1 && r2[k] == r1[k] {
      var base := if k in c then Remove(c[k], name) else [];
      var tail: seq<string> := if k in links then [name] else [];
      RemoveAppend(base, tail, name);
      if k in c {
        RemoveTwice(c[k], name);
      }
      assert Remove(tail, name) == [];
    }
    assert r2.Keys == r1.Keys;
  }

  /** With no links, a refresh is the purge alone. */
  lemma RefreshWithoutLinks(c: Index, name: string)
    ensures Refresh(c, name, []) == Purged(c, name)
  {
    var r := Refresh(c, name, []);
    assert (set t: string | t in []) == {};
    assert r.Keys == Purged(c, name).Keys;
    forall k | k in r ensures r[k] == Purged(c, name)[k] {
      assert Remove(c[k], name) + [] == Remove(c[k], name);
    }
  }

  /** Inserting the glyph into one more list, as one iteration of the loop in
      `cacheGlyphKeys` does after the purge. */
  lemma RefreshStep(c: Index, name: string, links: seq<string>, x: string)
    ensures var r := Refresh(c, name, links);
      var r1 := if x in r then r else r[x := []];
      var r2 := if name in r1[x] then r1 else r1[x := r1[x] + [name]];
      Refresh(c, name, links + [x]) == r2
  {
    var r := Refresh(c, name, links);
    var after := Refresh(c, name, links + [x]);
    var r1 := if x in r then r else r[x := []];
    var r2 := if name in r1[x] then r1 else r1[x := r1[x] + [name]];
    assert (set t | t in links + [x]) == (set t | t in links) + {x};
    assert after.Keys == r2.Keys;
    forall k | k in after
      ensures after[k] == r2[k]
    {
      if k != x {
        assert k in links + [x] <==> k in links;
      } else if x in links {
        assert name in r[x];
      } else if k in c {
        assert name !in Remove(c[k], name);
      }
    }
  }

  /** Membership after a refresh, one list and one glyph at a time. */
  lemma RefreshMember(c: Index, name: string, links: seq<string>, k: string, x: string)
    ensures var r := Refresh(c, name, links);
      (k in r && x in r[k]) <==> (if x == name then k in links else k in c && x in c[k])
  {
  }

  /** A glyph of a font with unique names is listed, after `cacheAllGlyphKeys`,
      under exactly the names its keys refer to. */
  lemma {:induction false} RefreshAllMember(c: Index, font: seq<Glyph>, i: nat, k: string)
    requires UniqueNames(font) && i < |font|
    ensures var r := RefreshAll(c, font);
      k in r && font[i].name in r[k] <==> k in GetGlyphMetricsKeys(font[i])
    decreases |font|
  {
    var n := |font| - 1;
    var prefix := font[..n];
    var g := font[n];
    RefreshMember(RefreshAll(c, prefix), g.name, GetGlyphMetricsKeys(g), k, font[i].name);
    if i < n {
      assert UniqueNames(prefix);
      assert font[i] == prefix[i];
      assert font[i].name != g.name;
      RefreshAllMember(c, prefix, i, k);
    }
  }

  /** Rebuilding the cache of a font with unique names lists each glyph under
      exactly the names its keys refer to (the index invariant). */
  lemma RefreshAllIndexes(c: Index, font: seq<Glyph>)
    requires UniqueNames(font)
    ensures var r := RefreshAll(c, font);
      forall i, k :: 0 <= i < |font| ==>
        (k in r && font[i].name in r[k] <==> k in GetGlyphMetricsKeys(font[i]))
  {
    forall i, k | 0 <= i < |font|
      ensures var r := RefreshAll(c, font);
        k in r && font[i].name in r[k] <==> k in GetGlyphMetricsKeys(font[i])
    {
      RefreshAllMember(c, font, i, k);
    }
  }

  /** `cacheAllGlyphKeys` leaves glyphs outside the font where they were. */
  lemma {:induction false} RefreshAllFrame(c: Index, font: seq<Glyph>, x: string)
    requires forall i :: 0 <= i < |font| ==> font[i].name != x
    ensures var r := RefreshAll(c, font);
      forall k :: k in r && x in r[k] <==> k in c && x in c[k]
    decreases |font|
  {
    if font != [] {
      var n := |font| - 1;
      RefreshAllFrame(c, font[..n], x);
      RefreshFrame(RefreshAll(c, font[..n]), font[n].name, GetGlyphMetricsKeys(font[n]));
    }
  }

  /** `cacheAllGlyphKeys` keeps every list free of duplicates. */
  lemma {:induction false} RefreshAllNoDup(c: Index, font: seq<Glyph>)
    requires NoDupLists(c)
    ensures NoDupLists(RefreshAll(c, font))
    decreases |font|
  {
    if font != [] {
      var n := |font| - 1;
      RefreshAllNoDup(c, font[..n]);
      RefreshNoDup(RefreshAll(c, font[..n]), font[n].name, GetGlyphMetricsKeys(font[n]));
    }
  }

  // ---------------------------------------------------------------------------
  // The change monitor's decision (`syncMetricsKeys`, drawing-layer part)

  /** The switch rule of both variants; on the same glyph any change of either
      bearing overwrites both snapshots, re-syncs the layer and flags an update. */
  function PluginReaction(s: Snapshot, layer: Layer): Reaction {
    if IsSwitch(s, layer) then SwitchReaction(s, layer)
    else if s.lsb != layer.lsb || s.rsb != layer.rsb then
      Reaction(Snapshot(s.glyph, layer.lsb, layer.rsb), 1, true)
    else Reaction(s, 0, false)
  }

  /** On the same glyph the plugin reacts exactly when a bearing differs from its
      snapshot, then adopts both bearings, re-syncs once and flags an update. */
  lemma PluginSameGlyph(s: Snapshot, layer: Layer)
    requires !IsSwitch(s, layer)
    ensures var r := PluginReaction(s, layer);
      && (r.update <==> s.lsb != layer.lsb || s.rsb != layer.rsb)
      && (r.update ==> r.next == Snapshot(Some(layer.parent.name), layer.lsb, layer.rsb) && r.localSyncs == 1)
      && (!r.update ==> r == Reaction(s, 0, false))
  {
  }

  /** When the plugin propagates: after a switch, exactly when an unkeyed side's
      reported bearing moved; on the same glyph, exactly when either bearing
      differs from its snapshot. */
  lemma PluginPropagates(s: Snapshot, layer: Layer)
    ensures var g := layer.parent;
      PluginReaction(s, layer).update <==>
        if IsSwitch(s, layer) then
          (Moved(s.lsb, layer.lsb) && g.leftKey.None?) || (Moved(s.rsb, layer.rsb) && g.rightKey.None?)
        else s.lsb != layer.lsb || s.rsb != layer.rsb
  {
  }

  /** After any tick on a drawing layer its glyph is the last glyph; with the
      layer unchanged, the second tick leaves the snapshot equal to the layer's
      bearings and the third does nothing. */
  lemma PluginSettles(s: Snapshot, layer: Layer)
    ensures PluginReaction(s, layer).next.glyph == Some(layer.parent.name)
    ensures var r2 := PluginReaction(PluginReaction(s, layer).next, layer);
      && r2.next == Snapshot(Some(layer.parent.name), layer.lsb, layer.rsb)
      && PluginReaction(r2.next, layer) == Reaction(r2.next, 0, false)
  {
  }

  /** A keyed side reaches the update one tick late: a switch onto a glyph whose
      keyed left side differs from the snapshot only re-syncs the layer and keeps
      the stale bearing, so the next tick, on the same glyph, flags an update. */
  lemma PluginKeyedSideLate(s: Snapshot, layer: Layer)
    requires IsSwitch(s, layer)
    requires layer.parent.leftKey.Some? && Moved(s.lsb, layer.lsb)
    requires !Moved(s.rsb, layer.rsb)
    ensures var r1 := PluginReaction(s, layer);
      && !r1.update && r1.localSyncs == 1 && r1.next.lsb == s.lsb
      && PluginReaction(r1.next, layer).update
  {
  }

  // ---------------------------------------------------------------------------
  // The inner loop of `purgeLinkFromCache`

  /** `for link in links: if link == glyph: links.remove(glyph)`: removing
      while iterating skips the element after each removal. Other glyphs keep
      their membership, and in a list without duplicates the single occurrence
      goes. */
  method PurgeList(links: seq<string>, g: string) returns (r: seq<string>)
    ensures forall x :: x != g ==> (x in r <==> x in links)
    ensures NoDup(links) ==> r == Remove(links, g)
  {
    r := links;
    var i := 0;
    while i < |r|
      invariant forall x :: x != g ==> (x in r <==> x in links)
      invariant NoDup(links) ==> r == links || r == Remove(links, g)
      invariant NoDup(links) && r == links ==> forall k :: 0 <= k < i && k < |r| ==> r[k] != g
      decreases |r| - i
    {
      if r[i] == g {
        if NoDup(links) {
          RemoveFirstOfNoDup(links, g);
        }
        r := RemoveFirst(r, g);
      }
      i := i + 1;
    }
    if NoDup(links) && r == links {
      assert g !in links;
      RemoveAbsent(links, g);
    }
  }

  // ---------------------------------------------------------------------------
  // The plugin object

  class MetricsAutoUpdate {
    var lastGlyph: Option<string>
    var lastLSB: Option<int>
    var lastRSB: Option<int>
    var glyphsCached: bool
    var cache: Index
    /** The glyphs whose layer `syncMetrics` the host was asked to run, in order. */
    var syncLog: seq<string>

    ghost predicate Valid()
      reads this
    {
      NoDupLists(cache)
    }

    function Snap(): Snapshot
      reads this
    {
      Snapshot(lastGlyph, lastLSB, lastRSB)
    }

    /** The state `start` sets up. */
    constructor ()
      ensures Valid()
      ensures lastGlyph == None && lastLSB == None && lastRSB == None
      ensures !glyphsCached && cache == map[] && syncLog == []
    {
      lastGlyph, lastLSB, lastRSB := None, None, None;
      glyphsCached := false;
      cache := map[];
      syncLog := [];
    }

    /** `syncGlyphMetrics(glyph)`: the active master's layer of the glyph is
        re-synced; a failed layer lookup is swallowed. */
    method SyncGlyphMetrics(g: string, available: set<string>)
      modifies this`syncLog
      ensures syncLog == old(syncLog) + (if g in available then [g] else [])
    {
      if g in available {
        syncLog := syncLog + [g];
      }
    }

    /** `updateMetrics(layer)`: every glyph cached under the active glyph's name
        is re-synced once, in list order; none when the name is not cached. */
    method UpdateMetrics(layer: Layer, available: set<string>)
      modifies this`syncLog
      ensures syncLog == old(syncLog) + (if layer.parent.name in cache then Available(cache[layer.parent.name], available) else [])
    {
      var glyph := layer.parent;
      if glyph.name !in cache {
        return;
      }
      var linkedGlyphs := cache[glyph.name];
      if |linkedGlyphs| > 0 {
        for i := 0 to |linkedGlyphs|
          invariant syncLog == old(syncLog) + Available(linkedGlyphs[..i], available)
        {
          AvailableStep(linkedGlyphs, i, available);
          SyncGlyphMetrics(linkedGlyphs[i], available);
        }
        assert linkedGlyphs[..|linkedGlyphs|] == linkedGlyphs;
      }
    }

    /** `purgeLinkFromCache(glyph)`: the glyph leaves every list of the cache. */
    method PurgeLinkFromCache(g: string)
      requires Valid()
      modifies this`cache
      ensures Valid()
      ensures cache == Purged(old(cache), g)
    {
      var keys := cache.Keys;
      while keys != {}
        invariant keys <= cache.Keys
        invariant cache.Keys == old(cache).Keys
        invariant forall k :: k in cache ==> cache[k] == if k in keys then old(cache)[k] else Remove(old(cache)[k], g)
        invariant NoDupLists(cache)
        decreases keys
      {
        var k :| k in keys;
        var links := PurgeList(cache[k], g);
        RemoveNoDup(cache[k], g);
        cache := cache[k := links];
        keys := keys - {k};
      }
    }

    /** `cacheGlyphKeys(glyph)`: purge, then list the glyph under every name its
        keys refer to. */
    method CacheGlyphKeys(g: Glyph)
      requires Valid()
      modifies this`cache
      ensures Valid()
      ensures cache == Refresh(old(cache), g.name, GetGlyphMetricsKeys(g))
    {
      ghost var c0 := old(cache);
      PurgeLinkFromCache(g.name);
      RefreshWithoutLinks(c0, g.name);
      var links: seq<string> := [];
      if g.leftKey.Some? || g.rightKey.Some? {
        links := GetGlyphMetricsKeys(g);
        if |links| > 0 {
          var c := cache;
          for i := 0 to |links|
            invariant c == Refresh(c0, g.name, links[..i])
          {
            var link := links[i];
            PrefixStep(links, i);
            RefreshStep(c0, g.name, links[..i], link);
            if link !in c {
              c := c[link := []];
            }
            if g.name !in c[link] {
              c := c[link := c[link] + [g.name]];
            }
          }
          assert links[..|links|] == links;
          cache := c;
        }
      }
      RefreshNoDup(c0, g.name, links);
    }

    /** `cacheAllGlyphKeys`: every glyph of the font is cached, then the cache is
        marked as built. */
    method CacheAllGlyphKeys(font: seq<Glyph>)
      requires Valid()
      modifies this`cache, this`glyphsCached
      ensures Valid() && glyphsCached
      ensures cache == RefreshAll(old(cache), font)
    {
      for i := 0 to |font|
        invariant Valid()
        invariant cache == RefreshAll(old(cache), font[..i])
      {
        assert font[..i + 1][..i] == font[..i];
        CacheGlyphKeys(font[i]);
      }
      assert font[..|font|] == font;
      glyphsCached := true;
    }

    /** The snapshot part of `syncMetricsKeys` on a drawing layer: the snapshot
        and the local re-syncs follow `PluginReaction`, and the result says
        whether the dependents are to be updated. */
    method TrackBearings(layer: Layer) returns (update: bool)
      modifies this`lastGlyph, this`lastLSB, this`lastRSB, this`syncLog
      ensures var r := PluginReaction(old(Snap()), layer);
        && Snap() == r.next
        && update == r.update
        && syncLog == old(syncLog) + Repeat(layer.parent.name, r.localSyncs)
    {
      var glyph := layer.parent;
      update := false;
      if Some(glyph.name) != lastGlyph || lastGlyph.None? {
        lastGlyph := Some(glyph.name);
        if layer.lsb.Some? {
          if lastLSB != layer.lsb {
            if glyph.leftKey.None? {
              lastLSB := layer.lsb;
              update := true;
            } else {
              syncLog := syncLog + [glyph.name];  // layer.syncMetrics()
            }
          }
        }
        if layer.rsb.Some? {
          if lastRSB != layer.rsb {
            if glyph.rightKey.None? {
              lastRSB := layer.rsb;
              update := true;
            } else {
              syncLog := syncLog + [glyph.name];  // layer.syncMetrics()
            }
          }
        }
      } else {
        if lastLSB != layer.lsb || lastRSB != layer.rsb {
          lastLSB := layer.lsb;
          lastRSB := layer.rsb;
          syncLog := syncLog + [glyph.name];  // layer.syncMetrics()
          update := true;
        }
      }
    }

    /** `syncMetricsKeys(layer)`, the redraw hook. An empty layer is left alone;
        otherwise the cache is built on the first tick, a background layer stops
        there, and a drawing layer updates the snapshot and the sync log as
        `PluginReaction` decides, refreshing the glyph's cache entries before its
        dependents are re-synced. */
    method SyncMetricsKeys(layer: Layer, font: seq<Glyph>, available: set<string>)
      requires Valid()
      modifies this
      ensures Valid()
      ensures !layer.hasPaths && !layer.hasComponents ==>
        && cache == old(cache) && glyphsCached == old(glyphsCached)
        && Snap() == old(Snap()) && syncLog == old(syncLog)
      ensures layer.hasPaths || layer.hasComponents ==>
        var built := if old(glyphsCached) then old(cache) else RefreshAll(old(cache), font);
        var r := PluginReaction(old(Snap()), layer);
        var name := layer.parent.name;
        var refreshed := if r.update then Refresh(built, name, GetGlyphMetricsKeys(layer.parent)) else built;
        && glyphsCached
        && (!layer.isGSLayer ==> cache == built && Snap() == old(Snap()) && syncLog == old(syncLog))
        && (layer.isGSLayer ==>
              && Snap() == r.next
              && cache == refreshed
              && syncLog == old(syncLog) + Repeat(name, r.localSyncs) +
                   (if r.update && name in refreshed then Available(refreshed[name], available) else []))
    {
      var glyph := layer.parent;

      if !layer.hasPaths && !layer.hasComponents {
        return;
      }

      if !glyphsCached {
        CacheAllGlyphKeys(font);
      }

      if !layer.isGSLayer {
        return;
      }

      var update := TrackBearings(layer);
      if update {
        CacheGlyphKeys(glyph);
        UpdateMetrics(layer, available);
      }
    }
  }
}
