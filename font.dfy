/** The host document as the engine sees it: glyphs with their metrics keys,
    the layer handed to the redraw hook, and the glyph-switch rule that both
    variants of the engine share. */
module Font {

  import opened Wrappers

  /** A glyph of the font: its unique name and its left and right metrics
      keys, each either absent or a key expression such as `=n-20`. */
  datatype Glyph = Glyph(name: string, leftKey: Option<string>, rightKey: Option<string>)

  /** The layer the hook is drawing: its parent glyph, its side bearings (the
      host may report none), whether it holds paths or components, and whether
      it is a real drawing layer (`GSLayer`) rather than a background layer. */
  datatype Layer = Layer(
    parent: Glyph,
    lsb: Option<int>,
    rsb: Option<int>,
    hasPaths: bool,
    hasComponents: bool,
    isGSLayer: bool)

  /** `glyphHasMetricsKeys`: the glyph holds a key on at least one side. */
  predicate HasMetricsKeys(g: Glyph) {
    g.leftKey.Some? || g.rightKey.Some?
  }

  /** Glyph names are unique within the font. */
  predicate UniqueNames(font: seq<Glyph>) {
    forall i, j :: 0 <= i < j < |font| ==> font[i].name != font[j].name
  }

  /** The names of a list of glyphs, in order. */
  function Names(gs: seq<Glyph>): (r: seq<string>)
    ensures |r| == |gs|
    ensures forall k :: 0 <= k < |gs| ==> r[k] == gs[k].name
  {
    seq(|gs|, k requires 0 <= k < |gs| => gs[k].name)
  }

  /** The change monitor's snapshot: `lastGlyph`, `lastLSB`, `lastRSB`. */
  datatype Snapshot = Snapshot(glyph: Option<string>, lsb: Option<int>, rsb: Option<int>)

  /** What one tick decides: the new snapshot, how many times the active
      layer's own `syncMetrics` is called, and whether the dependents of the
      active glyph are to be updated. */
  datatype Reaction = Reaction(next: Snapshot, localSyncs: nat, update: bool)

  /** The tick sees a different glyph than the last one (or none was seen yet). */
  predicate IsSwitch(s: Snapshot, layer: Layer) {
    Some(layer.parent.name) != s.glyph || s.glyph.None?
  }

  /** A side whose bearing is reported and differs from its snapshot. */
  predicate Moved(last: Option<int>, now: Option<int>) {
    now.Some? && last != now
  }

  /** The glyph-switch branch of both monitors: the new glyph becomes the last
      glyph; a moved side without a key takes the new bearing and asks for an
      update of the dependents; a moved side with a key only re-syncs the
      active layer. */
  function SwitchReaction(s: Snapshot, layer: Layer): Reaction {
    var g := layer.parent;
    var leftFree := Moved(s.lsb, layer.lsb) && g.leftKey.None?;
    var rightFree := Moved(s.rsb, layer.rsb) && g.rightKey.None?;
    var leftKeyed := Moved(s.lsb, layer.lsb) && g.leftKey.Some?;
    var rightKeyed := Moved(s.rsb, layer.rsb) && g.rightKey.Some?;
    Reaction(
      Snapshot(Some(g.name),
               if leftFree then layer.lsb else s.lsb,
               if rightFree then layer.rsb else s.rsb),
      (if leftKeyed then 1 else 0) + (if rightKeyed then 1 else 0),
      leftFree || rightFree)
  }

  /** On a switch the new glyph is remembered; a side's bearing enters the
      snapshot exactly when it is reported, differs from the snapshot and has
      no key, and an update is flagged exactly when that happens to a side. */
  lemma SwitchSnapshotRules(s: Snapshot, layer: Layer)
    ensures var r := SwitchReaction(s, layer);
      && r.next.glyph == Some(layer.parent.name)
      && (layer.parent.leftKey.Some? || layer.lsb.None? ==> r.next.lsb == s.lsb)
      && (layer.parent.rightKey.Some? || layer.rsb.None? ==> r.next.rsb == s.rsb)
      && (Moved(s.lsb, layer.lsb) && layer.parent.leftKey.None? ==> r.next.lsb == layer.lsb && r.update)
      && (Moved(s.rsb, layer.rsb) && layer.parent.rightKey.None? ==> r.next.rsb == layer.rsb && r.update)
      && (r.next.lsb != s.lsb ==> r.next.lsb == layer.lsb)
      && (r.next.rsb != s.rsb ==> r.next.rsb == layer.rsb)
      && (r.update <==> r.next.lsb != s.lsb || r.next.rsb != s.rsb)
  {
  }

  /** On a switch the active layer is re-synced once per keyed side whose
      bearing moved: never when neither did, once when exactly one did, twice
      when both did. A glyph keyed on both sides never flags an update. */
  lemma SwitchLocalSyncs(s: Snapshot, layer: Layer)
    ensures var r := SwitchReaction(s, layer);
      var leftKeyed := Moved(s.lsb, layer.lsb) && layer.parent.leftKey.Some?;
      var rightKeyed := Moved(s.rsb, layer.rsb) && layer.parent.rightKey.Some?;
      && (r.localSyncs == 0 <==> !leftKeyed && !rightKeyed)
      && (r.localSyncs == 1 <==> leftKeyed != rightKeyed)
      && (r.localSyncs == 2 <==> leftKeyed && rightKeyed)
      && (layer.parent.leftKey.Some? && layer.parent.rightKey.Some? ==> !r.update)
  {
  }

  /** A switch compares the new glyph with the previous glyph's bearings: moving
      from `A` (LSB 50) onto an unkeyed glyph `B` with LSB 60 flags an update,
      although nothing about `B` was edited. */
  lemma SwitchComparesPrevious()
    ensures var layer := Layer(Glyph("B", None, None), Some(60), Some(10), true, false, true);
      SwitchReaction(Snapshot(Some("A"), Some(50), Some(10)), layer)
        == Reaction(Snapshot(Some("B"), Some(60), Some(10)), 0, true)
  {
  }
}
