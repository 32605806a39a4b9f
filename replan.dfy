/**
 * What a successful run does to the repository's webhooks on GitHub's side,
 * and the property that makes the reconciler a reconciler: once every request
 * of a run has succeeded, planning again against the new webhook list finds
 * nothing to do. This holds when the configured URLs are distinct and the
 * existing hooks have distinct ids; `DuplicateUrlsBreakIdempotence` shows a
 * configuration with a repeated URL for which it fails.
 */
module Replan {
  import opened Optional
  import opened Arrays
  import opened Configuration
  import opened GitHub
  import opened Reconcile

  /** The repository's webhooks as GitHub holds them, and the id its next new hook gets. */
  datatype Remote = Remote(hooks: seq<Webhook>, nextId: HookId)

  /** `updateWebhook`: every hook with id `id` gets the event list `events`. */
  function SetEvents(hooks: seq<Webhook>, id: HookId, events: seq<string>): (r: seq<Webhook>)
    ensures |r| == |hooks|
    ensures forall k :: 0 <= k < |hooks| ==>
              r[k] == if hooks[k].id == id then hooks[k].(events := events) else hooks[k]
  {
    seq(|hooks|, k requires 0 <= k < |hooks| =>
      if hooks[k].id == id then hooks[k].(events := events) else hooks[k])
  }

  /** `deleteWebhook`: the hooks with id `id` are gone, the others keep their order. */
  function RemoveId(hooks: seq<Webhook>, id: HookId): (r: seq<Webhook>)
    ensures forall h :: h in r <==> h in hooks && h.id != id
  {
    if hooks == [] then []
    else (if hooks[0].id == id then [] else [hooks[0]]) + RemoveId(hooks[1..], id)
  }

  /** The effect of one accepted request on the repository's webhooks. */
  function Effect(r: Remote, a: Action): Remote
  {
    match a
    case Create(url, events) => Remote(r.hooks + [Webhook(r.nextId, Some(url), events, None)], r.nextId + 1)
    case Update(id, events) => Remote(SetEvents(r.hooks, id, events), r.nextId)
    case Delete(id, _) => Remote(RemoveId(r.hooks, id), r.nextId)
    case Unarchive => r
    case Rearchive => r
  }

  /** The effect of a list of requests that are all accepted, in order. */
  function ApplyAll(r: Remote, actions: seq<Action>): Remote
    decreases |actions|
  {
    if actions == [] then r else ApplyAll(Effect(r, actions[0]), actions[1..])
  }

  /** `existingWebhooks.find(...)`: the first hook with URL `url`. */
  function FirstHook(hooks: seq<Webhook>, url: string): Option<Webhook>
  {
    var i := FindIndex(hooks, HasUrl(url));
    if i == -1 then None else Some(hooks[i])
  }

  ghost predicate DistinctIds(hooks: seq<Webhook>)
  {
    forall i, j :: 0 <= i < |hooks| && 0 <= j < |hooks| && hooks[i].id == hooks[j].id ==> i == j
  }

  ghost predicate IdsBelow(hooks: seq<Webhook>, n: nat)
  {
    forall h :: h in hooks ==> h.id < n
  }

  ghost predicate DistinctUrls(configs: seq<WebhookConfig>)
  {
    forall i, j :: 0 <= i < |configs| && 0 <= j < |configs| && configs[i].url == configs[j].url ==> i == j
  }

  /** Hook ids are distinct and below the id the next created hook gets. */
  ghost predicate WellFormed(r: Remote)
  {
    DistinctIds(r.hooks) && IdsBelow(r.hooks, r.nextId)
  }

  ghost function Urls(configs: seq<WebhookConfig>): set<string>
  {
    set c | c in configs :: c.url
  }

  ghost predicate AllInSync(configs: seq<WebhookConfig>, hooks: seq<Webhook>)
  {
    forall c :: c in configs ==> InSync(c, hooks)
  }

  /** `a` and `b` have the same first hook for every URL outside `urls`. */
  ghost predicate SameFirstHooksOutside(urls: set<string>, a: seq<Webhook>, b: seq<Webhook>)
  {
    forall u :: u !in urls ==> FirstHook(a, u) == FirstHook(b, u)
  }

  /** `a` and `b` hold the same orphans. */
  ghost predicate SameOrphans(a: seq<Webhook>, b: seq<Webhook>, all: seq<WebhookConfig>, ignored: seq<string>)
  {
    && (forall h :: h in a && IsOrphaned(h, all, ignored) ==> h in b)
    && (forall h :: h in b && IsOrphaned(h, all, ignored) ==> h in a)
  }

  // ---------------------------------------------------------------------
  // Helpers: the first hook with a URL, under each kind of change
  // ---------------------------------------------------------------------

  lemma ApplyAllAppend(r: Remote, a: seq<Action>, b: seq<Action>)
    ensures ApplyAll(r, a + b) == ApplyAll(ApplyAll(r, a), b)
    decreases |a|
  {
    if a == [] {
      assert a + b == b;
    } else {
      assert (a + b)[0] == a[0];
      assert (a + b)[1..] == a[1..] + b;
      ApplyAllAppend(Effect(r, a[0]), a[1..], b);
    }
  }

  lemma ApplyAllSingle(r: Remote, a: Action)
    ensures ApplyAll(r, [a]) == Effect(r, a)
  {
    assert [a][1..] == [];
  }

  /** Two lists that agree, index by index, on whether `p` and `q` hold have the same first index. */
  lemma FindIndexAgrees<T, U>(s: seq<T>, t: seq<U>, p: T -> bool, q: U -> bool)
    requires |s| == |t| && forall k :: 0 <= k < |s| ==> p(s[k]) == q(t[k])
    ensures FindIndex(s, p) == FindIndex(t, q)
  {
    var i, j := FindIndex(s, p), FindIndex(t, q);
    if i >= 0 && j >= 0 {
      assert !(i < j) && !(j < i);
    }
  }

  lemma FirstHookCons(x: Webhook, hooks: seq<Webhook>, url: string)
    ensures FirstHook([x] + hooks, url) == if x.url == Some(url) then Some(x) else FirstHook(hooks, url)
  {
    var s := [x] + hooks;
    assert s[0] == x && s[1..] == hooks;
    var k := FindIndex(hooks, HasUrl(url));
    if x.url != Some(url) && k >= 0 {
      assert s[k + 1] == hooks[k];
    }
  }

  lemma FirstHookAppend(hooks: seq<Webhook>, x: Webhook, url: string)
    ensures FirstHook(hooks + [x], url)
            == if FirstHook(hooks, url).Some? then FirstHook(hooks, url)
               else if x.url == Some(url) then Some(x) else None
  {
    var s := hooks + [x];
    var i, j := FindIndex(s, HasUrl(url)), FindIndex(hooks, HasUrl(url));
    assert forall k :: 0 <= k < |hooks| ==> s[k] == hooks[k];
    if j >= 0 {
      assert HasUrl(url)(s[j]);
      assert i == j;
    } else if x.url == Some(url) {
      assert HasUrl(url)(s[|hooks|]);
      assert i == |hooks|;
    }
  }

  lemma FirstHookSetEvents(hooks: seq<Webhook>, id: HookId, events: seq<string>, url: string)
    ensures FirstHook(SetEvents(hooks, id, events), url)
            == match FirstHook(hooks, url)
               case None => None
               case Some(h) => Some(if h.id == id then h.(events := events) else h)
  {
    var s := SetEvents(hooks, id, events);
    FindIndexAgrees(s, hooks, HasUrl(url), HasUrl(url));
  }

  lemma RemoveIdCons(x: Webhook, hooks: seq<Webhook>, id: HookId)
    ensures RemoveId([x] + hooks, id) == if x.id == id then RemoveId(hooks, id) else [x] + RemoveId(hooks, id)
  {
    assert ([x] + hooks)[0] == x && ([x] + hooks)[1..] == hooks;
  }

  lemma {:induction false} FirstHookRemoveId(hooks: seq<Webhook>, id: HookId, url: string)
    requires forall h :: h in hooks && h.id == id ==> h.url != Some(url)
    ensures FirstHook(RemoveId(hooks, id), url) == FirstHook(hooks, url)
  {
    if hooks != [] {
      var x, rest := hooks[0], hooks[1..];
      assert hooks == [x] + rest;
      FirstHookRemoveId(rest, id, url);
      FirstHookCons(x, rest, url);
      RemoveIdCons(x, rest, id);
      if x.id != id {
        FirstHookCons(x, RemoveId(rest, id), url);
      } else {
        assert x.url != Some(url);
      }
    }
  }

  /** The diff of one configured webhook depends only on the first hook with its URL. */
  lemma DiffByFirstHook(c: WebhookConfig, hooks: seq<Webhook>)
    ensures Diff(c, hooks)
            == match FirstHook(hooks, c.url)
               case None => Some(Create(c.url, c.events))
               case Some(h) => if ElementsEqual(c.events, h.events) then None else Some(Update(h.id, c.events))
  {
  }

  lemma InSyncByFirstHook(c: WebhookConfig, hooks: seq<Webhook>)
    ensures InSync(c, hooks)
            <==> FirstHook(hooks, c.url).Some? && Elements(c.events) == Elements(FirstHook(hooks, c.url).value.events)
  {
    var k := FindIndex(hooks, HasUrl(c.url));
    if k >= 0 {
      assert FirstWithUrl(hooks, k, c.url);
      forall i | FirstWithUrl(hooks, i, c.url) ensures i == k {
        assert HasUrl(c.url)(hooks[i]);
      }
    } else {
      forall i | 0 <= i < |hooks| ensures !FirstWithUrl(hooks, i, c.url) {
        assert !HasUrl(c.url)(hooks[i]);
      }
    }
  }

  // ---------------------------------------------------------------------
  // The create and update phase
  // ---------------------------------------------------------------------

  /** Whether a hook is orphaned depends on its URL only. */
  lemma OrphanedByUrl(a: Webhook, b: Webhook, all: seq<WebhookConfig>, ignored: seq<string>)
    requires a.url == b.url
    ensures IsOrphaned(a, all, ignored) == IsOrphaned(b, all, ignored)
  {
  }

  /** A hook whose URL is configured is no orphan. */
  lemma ConfiguredIsNoOrphan(h: Webhook, c: WebhookConfig, all: seq<WebhookConfig>, ignored: seq<string>)
    requires c in all && h.url == Some(c.url)
    ensures !IsOrphaned(h, all, ignored)
  {
    OrphanedIff(h, all, ignored);
  }

  /** A create for an unmatched URL: the new hook carries the configured events, at the end of the list. */
  lemma ApplyCreate(c: WebhookConfig, all: seq<WebhookConfig>, ignored: seq<string>, r: Remote)
    requires c in all && FirstHook(r.hooks, c.url).None?
    requires DistinctIds(r.hooks) && IdsBelow(r.hooks, r.nextId)
    ensures var r' := Effect(r, Create(c.url, c.events));
            && DistinctIds(r'.hooks) && IdsBelow(r'.hooks, r'.nextId)
            && FirstHook(r'.hooks, c.url) == Some(Webhook(r.nextId, Some(c.url), c.events, None))
            && (forall u :: u != c.url ==> FirstHook(r'.hooks, u) == FirstHook(r.hooks, u))
            && (forall h :: h in r'.hooks && IsOrphaned(h, all, ignored) ==> h in r.hooks)
            && (forall h :: h in r.hooks ==> h in r'.hooks)
  {
    var hs := r.hooks;
    var x := Webhook(r.nextId, Some(c.url), c.events, None);
    var r' := Effect(r, Create(c.url, c.events));
    assert r'.hooks == hs + [x];
    FirstHookAppend(hs, x, c.url);
    forall u | u != c.url ensures FirstHook(r'.hooks, u) == FirstHook(hs, u) {
      FirstHookAppend(hs, x, u);
    }
    assert DistinctIds(r'.hooks) by {
      forall i, j | 0 <= i < |r'.hooks| && 0 <= j < |r'.hooks| && r'.hooks[i].id == r'.hooks[j].id
        ensures i == j
      {
        if i < |hs| { assert hs[i] in hs; }
        if j < |hs| { assert hs[j] in hs; }
      }
    }
    ConfiguredIsNoOrphan(x, c, all, ignored);
  }

  /**
   * An update of the first hook with the configured URL: that hook gets the
   * configured events; with distinct ids no other hook changes.
   */
  lemma ApplyUpdate(c: WebhookConfig, all: seq<WebhookConfig>, ignored: seq<string>, r: Remote, k: nat)
    requires c in all && k == FindIndex(r.hooks, HasUrl(c.url))
    requires DistinctIds(r.hooks) && IdsBelow(r.hooks, r.nextId)
    ensures var r' := Effect(r, Update(r.hooks[k].id, c.events));
            && DistinctIds(r'.hooks) && IdsBelow(r'.hooks, r'.nextId)
            && FirstHook(r'.hooks, c.url) == Some(r.hooks[k].(events := c.events))
            && (forall u :: u != c.url ==> FirstHook(r'.hooks, u) == FirstHook(r.hooks, u))
            && (forall h :: h in r'.hooks && IsOrphaned(h, all, ignored) ==> h in r.hooks)
            && (forall h :: h in r.hooks && IsOrphaned(h, all, ignored) ==> h in r'.hooks)
  {
    var hs := r.hooks;
    var id := hs[k].id;
    var s := SetEvents(hs, id, c.events);
    assert Effect(r, Update(id, c.events)).hooks == s;
    FirstHookSetEvents(hs, id, c.events, c.url);
    forall u | u != c.url ensures FirstHook(s, u) == FirstHook(hs, u) {
      FirstHookSetEvents(hs, id, c.events, u);
      var j := FindIndex(hs, HasUrl(u));
      if j >= 0 {
        assert hs[j].url == Some(u) && hs[k].url == Some(c.url);
        assert hs[j].id != id;
      }
    }
    forall j | 0 <= j < |hs| && j != k ensures s[j] == hs[j] {
      assert hs[j].id != id;
    }
    assert s[k].url == Some(c.url);
    forall h | h in s && IsOrphaned(h, all, ignored) ensures h in hs {
      var j :| 0 <= j < |s| && s[j] == h;
      if j == k {
        ConfiguredIsNoOrphan(h, c, all, ignored);
        assert false;
      }
    }
    ConfiguredIsNoOrphan(hs[k], c, all, ignored);
    forall h | h in hs && IsOrphaned(h, all, ignored) ensures h in s {
      var j :| 0 <= j < |hs| && hs[j] == h;
      assert j != k;
      assert s[j] == h;
    }
    assert IdsBelow(s, r.nextId) by {
      forall h | h in s ensures h.id < r.nextId {
        var j :| 0 <= j < |s| && s[j] == h;
        assert hs[j] in hs;
      }
    }
  }

  /** One configured webhook's action brings it in sync and disturbs no other URL and no orphan. */
  lemma ApplyDiff(c: WebhookConfig, all: seq<WebhookConfig>, ignored: seq<string>, r: Remote)
    requires c in all
    requires DistinctIds(r.hooks) && IdsBelow(r.hooks, r.nextId)
    ensures var r' := ApplyAll(r, Emitted(Diff(c, r.hooks)));
            && WellFormed(r')
            && InSync(c, r'.hooks)
            && SameFirstHooksOutside({c.url}, r'.hooks, r.hooks)
            && SameOrphans(r.hooks, r'.hooks, all, ignored)
  {
    var hs := r.hooks;
    DiffByFirstHook(c, hs);
    var d := Diff(c, hs);
    var r' := ApplyAll(r, Emitted(d));
    var k := FindIndex(hs, HasUrl(c.url));
    if d.None? {
      assert r' == r;
      ElementsEqualIsSetEquality(c.events, hs[k].events);
      InSyncByFirstHook(c, hs);
    } else {
      ApplyAllSingle(r, d.value);
      ElementsEqualIsSetEquality(c.events, c.events);
      InSyncByFirstHook(c, r'.hooks);
      if k == -1 {
        ApplyCreate(c, all, ignored, r);
      } else {
        ApplyUpdate(c, all, ignored, r, k);
      }
    }
  }

  /** Chains one entry's step and the rest's steps into the facts about the whole list. */
  lemma ComposeUpdates(c: WebhookConfig, tail: seq<WebhookConfig>, cs: seq<WebhookConfig>,
                       all: seq<WebhookConfig>, ignored: seq<string>, h: seq<Webhook>, h1: seq<Webhook>, h2: seq<Webhook>)
    requires cs == [c] + tail && c.url !in Urls(tail)
    requires InSync(c, h1) && SameFirstHooksOutside({c.url}, h1, h) && SameOrphans(h, h1, all, ignored)
    requires AllInSync(tail, h2) && SameFirstHooksOutside(Urls(tail), h2, h1) && SameOrphans(h1, h2, all, ignored)
    ensures AllInSync(cs, h2) && SameFirstHooksOutside(Urls(cs), h2, h) && SameOrphans(h, h2, all, ignored)
  {
    assert FirstHook(h2, c.url) == FirstHook(h1, c.url);
    InSyncByFirstHook(c, h1);
    InSyncByFirstHook(c, h2);
    forall c' | c' in cs ensures InSync(c', h2) {
      if c' != c {
        assert c' in tail;
      }
    }
    assert c.url in Urls(cs);
    assert forall c' :: c' in tail ==> c' in cs;
  }

  /**
   * Running the creates and updates of `cs` (computed against `h0`) from a
   * state whose first hooks for those URLs are those of `h0` brings every
   * entry of `cs` in sync, leaves the other URLs' first hooks alone and
   * neither adds nor removes an orphan.
   */
  lemma {:induction false} ApplyUpdates(cs: seq<WebhookConfig>, all: seq<WebhookConfig>, ignored: seq<string>, h0: seq<Webhook>, r: Remote)
    requires DistinctUrls(cs)
    requires forall c :: c in cs ==> c in all
    requires WellFormed(r)
    requires forall c :: c in cs ==> FirstHook(r.hooks, c.url) == FirstHook(h0, c.url)
    ensures var r' := ApplyAll(r, Updates(cs, h0));
            && WellFormed(r')
            && AllInSync(cs, r'.hooks)
            && SameFirstHooksOutside(Urls(cs), r'.hooks, r.hooks)
            && SameOrphans(r.hooks, r'.hooks, all, ignored)
  {
    if cs == [] {
      assert Updates(cs, h0) == [];
    } else {
      var c, tail := cs[0], cs[1..];
      assert cs == [c] + tail;
      var d := Diff(c, h0);
      assert d == Diff(c, r.hooks) by {
        DiffByFirstHook(c, h0);
        DiffByFirstHook(c, r.hooks);
      }
      ApplyDiff(c, all, ignored, r);
      var r1 := ApplyAll(r, Emitted(d));
      TailOfDistinct(c, tail, cs);
      assert forall c' :: c' in tail ==> FirstHook(r1.hooks, c'.url) == FirstHook(h0, c'.url) by {
        assert forall c' :: c' in tail ==> c' in cs && c'.url in Urls(tail);
      }
      ApplyUpdates(tail, all, ignored, h0, r1);
      var r' := ApplyAll(r1, Updates(tail, h0));
      assert ApplyAll(r, Updates(cs, h0)) == r' by {
        assert Updates(cs, h0) == Emitted(d) + Updates(tail, h0);
        ApplyAllAppend(r, Emitted(d), Updates(tail, h0));
      }
      ComposeUpdates(c, tail, cs, all, ignored, r.hooks, r1.hooks, r'.hooks);
    }
  }

  /** The rest of a list with distinct URLs has distinct URLs, none of them the head's. */
  lemma TailOfDistinct(c: WebhookConfig, tail: seq<WebhookConfig>, cs: seq<WebhookConfig>)
    requires cs == [c] + tail && DistinctUrls(cs)
    ensures DistinctUrls(tail) && c.url !in Urls(tail)
  {
    forall i, j | 0 <= i < |tail| && 0 <= j < |tail| && tail[i].url == tail[j].url ensures i == j {
      assert cs[i + 1] == tail[i] && cs[j + 1] == tail[j];
    }
    forall c' | c' in tail ensures c'.url != c.url {
      var j :| 0 <= j < |tail| && tail[j] == c';
      assert cs[j + 1] == c' && cs[0] == c;
    }
  }

  // ---------------------------------------------------------------------
  // The delete phase
  // ---------------------------------------------------------------------

  lemma DeletesCons(os: seq<Webhook>)
    requires os != [] && forall h :: h in os ==> h.url.Some?
    ensures Deletes(os) == [Delete(os[0].id, os[0].url.value)] + Deletes(os[1..])
  {
  }

  /**
   * Deleting hooks whose ids belong only to orphans removes exactly the
   * hooks with those ids and leaves the first hook of every configured URL
   * alone.
   */
  lemma {:induction false} ApplyDeletes(os: seq<Webhook>, all: seq<WebhookConfig>, ignored: seq<string>, h1: seq<Webhook>, r: Remote)
    requires forall o :: o in os ==> o.url.Some?
    requires forall h :: h in r.hooks ==> h in h1
    requires forall o, h :: o in os && h in h1 && h.id == o.id ==> IsOrphaned(h, all, ignored)
    ensures var r' := ApplyAll(r, Deletes(os));
            && (forall h :: h in r'.hooks <==> h in r.hooks && forall o :: o in os ==> o.id != h.id)
            && (forall c :: c in all ==> FirstHook(r'.hooks, c.url) == FirstHook(r.hooks, c.url))
  {
    if os == [] {
      assert Deletes(os) == [];
    } else {
      var o := os[0];
      DeletesCons(os);
      var a := Delete(o.id, o.url.value);
      var r1 := Effect(r, a);
      assert r1.hooks == RemoveId(r.hooks, o.id);
      assert ApplyAll(r, [a] + Deletes(os[1..])) == ApplyAll(r1, Deletes(os[1..])) by {
        ApplyAllAppend(r, [a], Deletes(os[1..]));
        ApplyAllSingle(r, a);
      }
      forall c | c in all ensures FirstHook(r1.hooks, c.url) == FirstHook(r.hooks, c.url) {
        forall h | h in r.hooks && h.id == o.id ensures h.url != Some(c.url) {
          OrphanedIff(h, all, ignored);
        }
        FirstHookRemoveId(r.hooks, o.id, c.url);
      }
      ApplyDeletes(os[1..], all, ignored, h1, r1);
      assert forall o' :: o' in os <==> o' == o || o' in os[1..] by {
        assert os == [o] + os[1..];
      }
    }
  }

  // ---------------------------------------------------------------------
  // Idempotence
  // ---------------------------------------------------------------------

  /**
   * Deleting the orphans found in `hooks` from a state that holds the same
   * orphans and the configured entries in sync keeps those entries in sync and
   * leaves no orphan.
   */
  lemma DeleteOrphans(all: seq<WebhookConfig>, ignored: seq<string>, hooks: seq<Webhook>, r1: Remote)
    requires WellFormed(r1) && AllInSync(all, r1.hooks) && SameOrphans(hooks, r1.hooks, all, ignored)
    ensures var r2 := ApplyAll(r1, Deletes(FindOrphanedWebhooks(hooks, all, ignored)));
            && AllInSync(all, r2.hooks)
            && forall h :: h in r2.hooks ==> !IsOrphaned(h, all, ignored)
  {
    var os := FindOrphanedWebhooks(hooks, all, ignored);
    var r2 := ApplyAll(r1, Deletes(os));
    OrphanedUrlsPresent(os, hooks, all, ignored);
    OrphanIdsAreUnique(os, all, ignored, hooks, r1.hooks);
    ApplyDeletes(os, all, ignored, r1.hooks, r1);
    forall c | c in all ensures InSync(c, r2.hooks) {
      InSyncByFirstHook(c, r1.hooks);
      InSyncByFirstHook(c, r2.hooks);
    }
    assert forall h :: h in r2.hooks ==> !IsOrphaned(h, all, ignored);
  }

  lemma OrphanedUrlsPresent(os: seq<Webhook>, hooks: seq<Webhook>, all: seq<WebhookConfig>, ignored: seq<string>)
    requires os == FindOrphanedWebhooks(hooks, all, ignored)
    ensures forall o :: o in os ==> o.url.Some?
  {
    forall o | o in os ensures o.url.Some? {
      OrphanedIff(o, all, ignored);
    }
  }

  /** A list in which every entry is in sync and, with clean-up, no hook is orphaned plans nothing. */
  lemma NothingToPlan(all: seq<WebhookConfig>, hooks: seq<Webhook>, cleanUp: CleanUp)
    requires AllInSync(all, hooks)
    requires cleanUp.enabled ==> forall h :: h in hooks ==> !IsOrphaned(h, all, cleanUp.ignoredWebhookUrls)
    ensures Planned(all, hooks, cleanUp) == []
  {
    InSyncIffNoUpdates(all, hooks);
    var os := FindOrphanedWebhooks(hooks, all, cleanUp.ignoredWebhookUrls);
    assert os == [] || os[0] in os;
  }

  /** After the creates and updates and then the orphan deletes, the list is settled. */
  lemma PlannedSettles(all: seq<WebhookConfig>, hooks: seq<Webhook>, cleanUp: CleanUp, nextId: HookId)
    requires DistinctUrls(all)
    requires DistinctIds(hooks) && IdsBelow(hooks, nextId)
    ensures Planned(all, ApplyAll(Remote(hooks, nextId), Planned(all, hooks, cleanUp)).hooks, cleanUp) == []
  {
    var ignored := cleanUp.ignoredWebhookUrls;
    var u := Updates(all, hooks);
    var os := FindOrphanedWebhooks(hooks, all, ignored);
    var r0 := Remote(hooks, nextId);
    ApplyUpdates(all, all, ignored, hooks, r0);
    var r1 := ApplyAll(r0, u);
    if cleanUp.enabled && |os| > 0 {
      ApplyAllAppend(r0, u, Deletes(os));
      DeleteOrphans(all, ignored, hooks, r1);
      NothingToPlan(all, ApplyAll(r1, Deletes(os)).hooks, cleanUp);
    } else {
      assert cleanUp.enabled ==> forall h :: h in r1.hooks ==> !IsOrphaned(h, all, ignored) by {
        assert forall h :: h in hooks && IsOrphaned(h, all, ignored) ==> h in os;
      }
      NothingToPlan(all, r1.hooks, cleanUp);
    }
  }

  /** With distinct ids, the only hook carrying an orphan's id is that orphan. */
  lemma OrphanIdsAreUnique(os: seq<Webhook>, all: seq<WebhookConfig>, ignored: seq<string>, hooks: seq<Webhook>, h1: seq<Webhook>)
    requires os == FindOrphanedWebhooks(hooks, all, ignored)
    requires DistinctIds(h1)
    requires forall h :: h in hooks && IsOrphaned(h, all, ignored) ==> h in h1
    ensures forall o, h :: o in os && h in h1 && h.id == o.id ==> IsOrphaned(h, all, ignored)
  {
    forall o, h | o in os && h in h1 && h.id == o.id ensures IsOrphaned(h, all, ignored) {
      assert o in h1;
      var i :| 0 <= i < |h1| && h1[i] == h;
      var j :| 0 <= j < |h1| && h1[j] == o;
      assert i == j;
    }
  }

  /**
   * If every request of a run is accepted, planning again for the same
   * repository and configuration against the resulting webhooks finds
   * nothing to do: no create, no update and (with clean-up) no orphan left.
   */
  lemma ReplanAfterSuccessIsEmpty(repository: Repository, hooks: seq<Webhook>, config: Config, nextId: HookId)
    requires Plan(repository, hooks, config).Execute?
    requires DistinctUrls(WebhookConfigsFor(config.users, repository.owner).value)
    requires DistinctIds(hooks) && IdsBelow(hooks, nextId)
    ensures var after := ApplyAll(Remote(hooks, nextId), Plan(repository, hooks, config).run);
            Plan(repository, after.hooks, config) == Hold([])
  {
    var all := WebhookConfigsFor(config.users, repository.owner).value;
    var p := Planned(all, hooks, config.cleanUp);
    var r0 := Remote(hooks, nextId);
    PlannedSettles(all, hooks, config.cleanUp, nextId);
    var r2 := ApplyAll(r0, p);
    var run := Plan(repository, hooks, config).run;
    if repository.archived {
      assert run == [Unarchive] + (p + [Rearchive]);
      ApplyAllAppend(r0, [Unarchive], p + [Rearchive]);
      ApplyAllSingle(r0, Unarchive);
      ApplyAllAppend(r0, p, [Rearchive]);
      ApplyAllSingle(r2, Rearchive);
    }
    assert ApplyAll(r0, run) == r2;
  }

  /**
   * Without distinct URLs re-planning need not settle: two entries for one
   * URL create two hooks, and planning again updates the first of them to
   * the second entry's events.
   */
  lemma DuplicateUrlsBreakIdempotence()
    ensures var config := Config(false,
                                 [UserEntry(User, "octo", [WebhookConfig("https://x/hook", ["push"]),
                                                           WebhookConfig("https://x/hook", ["issues"])])],
                                 false, CleanUp(false, []));
            var repository := Repository("octo", "repo", false, Some(Permissions(true)));
            && Plan(repository, [], config)
               == Execute([Create("https://x/hook", ["push"]), Create("https://x/hook", ["issues"])])
            && Plan(repository, ApplyAll(Remote([], 1), Plan(repository, [], config).run).hooks, config)
               == Execute([Update(1, ["issues"])])
  {
    var push, issues := WebhookConfig("https://x/hook", ["push"]), WebhookConfig("https://x/hook", ["issues"]);
    var config := Config(false, [UserEntry(User, "octo", [push, issues])], false, CleanUp(false, []));
    var repository := Repository("octo", "repo", false, Some(Permissions(true)));
    var all := [push, issues];
    assert WebhookConfigsFor(config.users, "octo") == Some(all);
    assert Updates(all, []) == [Create("https://x/hook", ["push"]), Create("https://x/hook", ["issues"])] by {
      DiffByFirstHook(push, []);
      DiffByFirstHook(issues, []);
      assert all[1..] == [issues] && [issues][1..] == [];
      assert Updates([issues], []) == [Create("https://x/hook", ["issues"])];
    }
    var run := Plan(repository, [], config).run;
    var h1 := Webhook(1, Some("https://x/hook"), ["push"], None);
    var h2 := Webhook(2, Some("https://x/hook"), ["issues"], None);
    assert ApplyAll(Remote([], 1), run).hooks == [h1, h2] by {
      ApplyAllAppend(Remote([], 1), [run[0]], [run[1]]);
      assert run == [run[0]] + [run[1]];
      ApplyAllSingle(Remote([], 1), run[0]);
      ApplyAllSingle(Remote([h1], 2), run[1]);
    }
    assert FirstHook([h1, h2], "https://x/hook") == Some(h1) by {
      FirstHookCons(h1, [h2], "https://x/hook");
    }
    ElementsEqualIsSetEquality(["push"], ["push"]);
    ElementsEqualIsSetEquality(["issues"], ["push"]);
    assert "issues" !in Elements(["push"]);
    DiffByFirstHook(push, [h1, h2]);
    DiffByFirstHook(issues, [h1, h2]);
    assert Diff(push, [h1, h2]) == None;
    assert Diff(issues, [h1, h2]) == Some(Update(1, ["issues"]));
    assert Updates(all, [h1, h2]) == [Update(1, ["issues"])] by {
      assert all[1..] == [issues] && [issues][1..] == [];
      assert Updates([issues], [h1, h2]) == [Update(1, ["issues"])];
    }
    OrphanedIff(h1, all, []);
    OrphanedIff(h2, all, []);
  }
}
