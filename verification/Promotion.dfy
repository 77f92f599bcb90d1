/** Promoting items (distill.py): leaf document and routes of each, and that all of them are delivered afterwards. */
module Promotion {
  import opened Knowledge
  import opened LeafDoc
  import opened LeafDocTheorems
  import opened LeafRoutes
  import opened Router
  import opened Text
  import opened Wrappers

  /** The leaf documents by path, and the entries of routes.yaml. */
  datatype Site = Site(docs: map<string, string>, routes: seq<Route>)

  /** `leaf_doc_rel`. */
  function LeafPath(slug: string, item: Item): string {
    var name := Strip(if item.topic != "" then item.topic else slug);
    "docs/inject/" + seq(|name|, i requires 0 <= i < |name| => if name[i] == '/' then '-' else name[i]) + ".md"
  }

  function Existing(docs: map<string, string>, path: string): Option<string> {
    if path in docs then Some(docs[path]) else None
  }

  /** The leaf document after the item's bullet is written to it. */
  function NewDoc(existing: Option<string>, item: Item): string {
    if existing.Some? then Written(existing.value, BulletOf(item.finding)) else Document([BulletOf(item.finding)], [])
  }

  function Materialized(site: Site, slug: string, item: Item): Site {
    var leaf := LeafPath(slug, item);
    Site(site.docs[leaf := NewDoc(Existing(site.docs, leaf), item)], Added(site.routes, EntriesFor(item.paths, leaf)))
  }

  datatype Promoted = Promoted(slug: string, item: Item)

  function MaterializedAll(site: Site, batch: seq<Promoted>): Site {
    if batch == [] then site
    else
      var last := batch[|batch| - 1];
      Materialized(MaterializedAll(site, batch[..|batch| - 1]), last.slug, last.item)
  }

  /** The files that promotions write. */
  class Workspace {
    var docs: map<string, string>
    var routes: seq<Route>

    constructor (site: Site)
      ensures Contents() == site
    {
      docs, routes := site.docs, site.routes;
    }

    function Contents(): Site
      reads this
    {
      Site(docs, routes)
    }

    /** The leaf document and the routes of `materialize`. */
    method Materialize(slug: string, item: Item)
      modifies this
      ensures Contents() == Materialized(old(Contents()), slug, item)
    {
      var leaf := LeafPath(slug, item);
      var text := WriteLeafDoc(Existing(docs, leaf), BulletOf(item.finding));
      docs := docs[leaf := text];
      routes := AddRoute(routes, EntriesFor(item.paths, leaf));
    }
  }

  // ---- Every promoted item is delivered ------------------------------------------------------------

  /** The item's bullet reads back from its leaf document, and each of its globs injects that document. */
  predicate Delivered(site: Site, slug: string, item: Item) {
    var leaf := LeafPath(slug, item);
    && leaf in site.docs && Present(Bullets(site.docs[leaf]), BulletOf(item.finding))
    && forall i | 0 <= i < |item.paths| :: Registered(site.routes, Route(item.paths[i], [leaf], DEFAULT_PRIORITY))
  }

  /** A finding as an item file gives it. */
  predicate OneLine(item: Item) {
    BreakFree(item.finding)
  }

  lemma FreshDoc(bullet: string)
    ensures Document([bullet], []) == Written("", bullet)
  {
    assert PlainLines("") == [] && Extract("") == Strip("") == Tail("") == [];
    assert Bullets("") == [] && !Present([], bullet);
    assert [] + [bullet] == [bullet];
  }

  lemma BulletWritten(text: string, finding: string)
    requires BreakFree(finding)
    ensures Present(Bullets(Written(text, BulletOf(finding))), BulletOf(finding))
    ensures Bullets(text) <= Bullets(Written(text, BulletOf(finding)))
  {
    var bullet, were := BulletOf(finding), Bullets(text);
    var now := Bullets(Written(text, bullet));
    RewriteRoundTrips(text, finding);
    if Present(were, bullet) {
      assert now == were + [] == were;
    } else {
      StripRStrip(bullet);
      PresentLast(were, RStrip(bullet), bullet);
      assert now == were + [RStrip(bullet)];
    }
  }

  lemma PresentLast(bullets: seq<string>, x: string, bullet: string)
    requires Strip(x) == Strip(bullet)
    ensures Present(bullets + [x], bullet) && bullets <= bullets + [x]
  {
    assert (bullets + [x])[|bullets|] == x;
  }

  lemma PresentLater(bullets: seq<string>, more: seq<string>, bullet: string)
    requires bullets <= more && Present(bullets, bullet)
    ensures Present(more, bullet)
  {
    var i :| 0 <= i < |bullets| && Strip(bullets[i]) == Strip(bullet);
    assert more[i] == bullets[i];
  }

  lemma NewDocHas(existing: Option<string>, item: Item)
    requires OneLine(item)
    ensures Present(Bullets(NewDoc(existing, item)), BulletOf(item.finding))
    ensures existing.Some? ==> Bullets(existing.value) <= Bullets(NewDoc(existing, item))
  {
    FreshDoc(BulletOf(item.finding));
    BulletWritten(if existing.Some? then existing.value else "", item.finding);
  }

  lemma DeliversOne(site: Site, slug: string, item: Item)
    requires OneLine(item)
    ensures Delivered(Materialized(site, slug, item), slug, item)
  {
    var leaf := LeafPath(slug, item);
    var entries := EntriesFor(item.paths, leaf);
    NewDocHas(Existing(site.docs, leaf), item);
    AddKeepsAndRegisters(site.routes, entries);
    forall i | 0 <= i < |item.paths|
      ensures Registered(Added(site.routes, entries), Route(item.paths[i], [leaf], DEFAULT_PRIORITY))
    {
      assert entries[i] == Route(item.paths[i], [leaf], DEFAULT_PRIORITY);
    }
  }

  /** A later promotion, also one into the same document, takes nothing away. */
  lemma StaysDelivered(site: Site, slug: string, item: Item, other: string, with: Item)
    requires Delivered(site, slug, item) && OneLine(with)
    ensures Delivered(Materialized(site, other, with), slug, item)
  {
    var leaf, after := LeafPath(slug, item), Materialized(site, other, with);
    NewDocHas(Existing(site.docs, LeafPath(other, with)), with);
    if leaf == LeafPath(other, with) {
      PresentLater(Bullets(site.docs[leaf]), Bullets(after.docs[leaf]), BulletOf(item.finding));
    }
    AddKeepsAndRegisters(site.routes, EntriesFor(with.paths, LeafPath(other, with)));
    forall i | 0 <= i < |item.paths|
      ensures Registered(after.routes, Route(item.paths[i], [leaf], DEFAULT_PRIORITY))
    {
      RegisteredLater(site.routes, after.routes, Route(item.paths[i], [leaf], DEFAULT_PRIORITY));
    }
  }

  ghost predicate AllDelivered(site: Site, batch: seq<Promoted>) {
    forall p | p in batch :: Delivered(site, p.slug, p.item)
  }

  ghost predicate AllOneLine(batch: seq<Promoted>) {
    forall p | p in batch :: OneLine(p.item)
  }

  lemma DeliversNext(site: Site, batch: seq<Promoted>, last: Promoted)
    requires AllDelivered(site, batch) && AllOneLine(batch + [last])
    ensures AllDelivered(Materialized(site, last.slug, last.item), batch + [last])
  {
    assert last in batch + [last];
    DeliversOne(site, last.slug, last.item);
    forall p | p in batch
      ensures Delivered(Materialized(site, last.slug, last.item), p.slug, p.item)
    {
      StaysDelivered(site, p.slug, p.item, last.slug, last.item);
    }
  }

  /** After a batch of promotions every one of its items is delivered. */
  lemma {:induction false} BatchIsDelivered(site: Site, batch: seq<Promoted>)
    requires AllOneLine(batch)
    ensures AllDelivered(MaterializedAll(site, batch), batch)
  {
    if batch != [] {
      var init, last := batch[..|batch| - 1], batch[|batch| - 1];
      assert batch == init + [last];
      BatchIsDelivered(site, init);
      DeliversNext(MaterializedAll(site, init), init, last);
    }
  }

  /** Leaf documents lie flat in one directory: the topic, else the slug, stripped and its slashes turned to dashes. */
  lemma LeafPathIsFlat(slug: string, item: Item)
    ensures exists name :: (
              && LeafPath(slug, item) == "docs/inject/" + name + ".md" && '/' !in name
              && var key := Strip(if item.topic == "" then slug else item.topic);
                 |name| == |key| && forall i | 0 <= i < |key| :: name[i] == key[i] || (key[i] == '/' && name[i] == '-'))
  {
    var key := Strip(if item.topic == "" then slug else item.topic);
    var name := seq(|key|, i requires 0 <= i < |key| => if key[i] == '/' then '-' else key[i]);
    assert LeafPath(slug, item) == "docs/inject/" + name + ".md";
  }

  // ---- What a batch leaves alone -------------------------------------------------------------------

  /** The document keeps its bullets, in front of new ones, and its other sections. */
  predicate DocKept(before: string, after: string) {
    Bullets(before) <= Bullets(after) && Tail(after) == Tail(before)
  }

  /** Documents that no item of the batch goes to are as they were, the others keep what they held; the routes there
      were stay in place, and each new one is for a glob of an item and names its leaf document. */
  ghost predicate KeepsSite(before: Site, after: Site, batch: seq<Promoted>) {
    && (forall path | path in before.docs :: path in after.docs && DocKept(before.docs[path], after.docs[path]))
    && (forall path | forall p | p in batch :: LeafPath(p.slug, p.item) != path ::
          && (path in after.docs <==> path in before.docs)
          && (path in before.docs ==> after.docs[path] == before.docs[path]))
    && before.routes <= after.routes
    && forall k | |before.routes| <= k < |after.routes| :: RouteOf(batch, after.routes[k])
  }

  ghost predicate RouteOf(batch: seq<Promoted>, route: Route) {
    exists p :: p in batch && exists i | 0 <= i < |p.item.paths| ::
      route == Route(p.item.paths[i], [LeafPath(p.slug, p.item)], DEFAULT_PRIORITY)
  }

  lemma WrittenKeeps(text: string, finding: string)
    requires BreakFree(finding)
    ensures DocKept(text, Written(text, BulletOf(finding)))
  {
    BulletWritten(text, finding);
    RewriteRoundTrips(text, finding);
  }

  lemma EntryOf(item: Item, leaf: string, route: Route)
    requires route in EntriesFor(item.paths, leaf)
    ensures exists i | 0 <= i < |item.paths| :: route == Route(item.paths[i], [leaf], DEFAULT_PRIORITY)
  {
  }

  /** One promotion. */
  lemma MaterializeKeeps(site: Site, slug: string, item: Item)
    requires OneLine(item)
    ensures KeepsSite(site, Materialized(site, slug, item), [Promoted(slug, item)])
  {
    var leaf, after, one := LeafPath(slug, item), Materialized(site, slug, item), Promoted(slug, item);
    if leaf in site.docs {
      WrittenKeeps(site.docs[leaf], item.finding);
    }
    var entries := EntriesFor(item.paths, leaf);
    AddKeepsAndRegisters(site.routes, entries);
    forall k | |site.routes| <= k < |after.routes|
      ensures RouteOf([one], after.routes[k])
    {
      AddsOnlyEntries(site.routes, entries, k);
      EntryOf(item, leaf, after.routes[k]);
      assert one in [one];
    }
    assert one in [one];
  }

  lemma RouteOfMore(batch: seq<Promoted>, more: seq<Promoted>, route: Route)
    requires RouteOf(batch, route) && forall p | p in batch :: p in more
    ensures RouteOf(more, route)
  {
  }

  lemma DocKeptTwice(a: string, b: string, c: string)
    requires DocKept(a, b) && DocKept(b, c)
    ensures DocKept(a, c)
  {
  }

  lemma KeepsSiteTwice(a: Site, b: Site, c: Site, batch: seq<Promoted>, last: Promoted)
    requires KeepsSite(a, b, batch) && KeepsSite(b, c, [last])
    ensures KeepsSite(a, c, batch + [last])
  {
    var all := batch + [last];
    forall path | path in a.docs
      ensures path in c.docs && DocKept(a.docs[path], c.docs[path])
    {
      DocKeptTwice(a.docs[path], b.docs[path], c.docs[path]);
    }
    forall path | forall p | p in all :: LeafPath(p.slug, p.item) != path
      ensures (path in c.docs <==> path in a.docs) && (path in a.docs ==> c.docs[path] == a.docs[path])
    {
      assert last in all && forall p | p in batch :: p in all;
    }
    forall k | |a.routes| <= k < |c.routes|
      ensures RouteOf(all, c.routes[k])
    {
      if k < |b.routes| {
        assert c.routes[k] == b.routes[k];
        RouteOfMore(batch, all, c.routes[k]);
      } else {
        RouteOfMore([last], all, c.routes[k]);
      }
    }
  }

  /** A batch takes nothing from any document or route, and adds nothing but its own. */
  lemma {:induction false} BatchKeepsRest(site: Site, batch: seq<Promoted>)
    requires AllOneLine(batch)
    ensures KeepsSite(site, MaterializedAll(site, batch), batch)
  {
    if batch != [] {
      var init, last := batch[..|batch| - 1], batch[|batch| - 1];
      assert batch == init + [last];
      BatchKeepsRest(site, init);
      MaterializeKeeps(MaterializedAll(site, init), last.slug, last.item);
      KeepsSiteTwice(site, MaterializedAll(site, init), MaterializedAll(site, batch), init, last);
    }
  }

  /** The router lists the leaf document of a delivered item for every path that one of the item's globs matches. */
  lemma DeliveredIsSelected(site: Site, slug: string, item: Item, g: nat, target: string, selected: seq<string>)
    requires Delivered(site, slug, item) && g < |item.paths| && item.paths[g] != ""
    requires Hits(Route(item.paths[g], [LeafPath(slug, item)], DEFAULT_PRIORITY), target)
    requires IsRanking(Loaded(site.routes), target, selected)
    ensures LeafPath(slug, item) in selected
  {
    RegisteredIsRouted(site.routes, item.paths[g], LeafPath(slug, item), target, selected);
  }
}
