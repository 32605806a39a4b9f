/**
 * The decision logic of `updateGitHubRepository` in bin/update-webhooks.ts,
 * for one repository: gating, the diff of configured against existing
 * webhooks, orphan detection and the archive bracketing of the action list.
 * Everything here is a pure function of the configuration and of the fetched
 * snapshots; execution lives in module Execution.
 */
module Reconcile {
  import opened Optional
  import opened Arrays
  import opened Configuration
  import opened GitHub

  /** One remote call the reconciler makes (each replaces a closure over an Octokit call). */
  datatype Action =
    | Create(url: string, events: seq<string>)   // repos.createWebhook
    | Update(id: HookId, events: seq<string>)    // repos.updateWebhook
    | Delete(id: HookId, url: string)            // repos.deleteWebhook of an orphan
    | Unarchive                                  // repos.update with archived: false
    | Rearchive                                  // repos.update with archived: true

  /** Why a repository is left alone. */
  datatype SkipReason = NoWebhookConfig | NoAdminPermission | RepositoryArchived

  /** What the reconciler decides for one repository. */
  datatype PlanResult =
    | Skip(reason: SkipReason)        // an early return before the webhooks are listed
    | Hold(updates: seq<Action>)      // dry run, or nothing to do: the list is computed but not run
    | Execute(run: seq<Action>)       // the list that is run, in order

  /**
   * JavaScript's `findIndex`: the first index whose element satisfies `p`, or
   * -1 when there is none (`find` is the element at that index).
   */
  function FindIndex<T>(s: seq<T>, p: T -> bool): (r: int)
    ensures -1 <= r < |s|
    ensures r == -1 <==> forall i :: 0 <= i < |s| ==> !p(s[i])
    ensures 0 <= r ==> p(s[r]) && forall i :: 0 <= i < r ==> !p(s[i])
  {
    if s == [] then -1
    else if p(s[0]) then 0
    else
      var k := FindIndex(s[1..], p);
      if k == -1 then -1 else k + 1
  }

  /** `user.username === owner` */
  function OwnedBy(owner: string): UserEntry -> bool
  {
    (user: UserEntry) => user.username == owner
  }

  /** `webhook.config.url === url`: an absent URL matches nothing. */
  function HasUrl(url: string): Webhook -> bool
  {
    (hook: Webhook) => hook.url == Some(url)
  }

  /** `webhookConfig.url === url` */
  function ConfiguresUrl(url: string): WebhookConfig -> bool
  {
    (config: WebhookConfig) => config.url == url
  }

  /**
   * `config.users.find(...)?.webhooks`: the webhook list of the first entry
   * for the repository's owner. An empty list is still a list: only a missing
   * entry makes the repository skipped.
   */
  function WebhookConfigsFor(users: seq<UserEntry>, owner: string): (r: Option<seq<WebhookConfig>>)
    ensures r.None? <==> forall u :: u in users ==> u.username != owner
    ensures forall i :: 0 <= i < |users| && users[i].username == owner
                        && (forall j :: 0 <= j < i ==> users[j].username != owner)
                     ==> r == Some(users[i].webhooks)
  {
    var i := FindIndex(users, OwnedBy(owner));
    if i == -1 then None else Some(users[i].webhooks)
  }

  /** `hooks[i]` is the first existing webhook whose URL is `url`. */
  ghost predicate FirstWithUrl(hooks: seq<Webhook>, i: int, url: string)
  {
    0 <= i < |hooks| && hooks[i].url == Some(url)
    && forall j :: 0 <= j < i ==> hooks[j].url != Some(url)
  }

  /** No existing webhook has URL `url`. */
  ghost predicate Unmatched(hooks: seq<Webhook>, url: string)
  {
    forall h :: h in hooks ==> h.url != Some(url)
  }

  /** The configured webhook already exists with the same set of events. */
  ghost predicate InSync(config: WebhookConfig, hooks: seq<Webhook>)
  {
    exists i :: FirstWithUrl(hooks, i, config.url) && Elements(config.events) == Elements(hooks[i].events)
  }

  /** The action one configured webhook calls for, if any (the callback of `webhookConfigs.map`). */
  function Diff(config: WebhookConfig, hooks: seq<Webhook>): Option<Action>
  {
    var i := FindIndex(hooks, HasUrl(config.url));
    if i >= 0 && ElementsEqual(config.events, hooks[i].events) then None
    else if i >= 0 then Some(Update(hooks[i].id, config.events))
    else Some(Create(config.url, config.events))
  }

  /** `.filter(Boolean)` on one mapped entry. */
  function Emitted(d: Option<Action>): seq<Action>
  {
    match d
    case None => []
    case Some(a) => [a]
  }

  /** The create and update actions, one entry of `configs` after another. */
  function Updates(configs: seq<WebhookConfig>, hooks: seq<Webhook>): seq<Action>
  {
    if configs == [] then []
    else Emitted(Diff(configs[0], hooks)) + Updates(configs[1..], hooks)
  }

  /**
   * The filter of `findOrphanedWebhooks`: the hook has a non-empty URL that
   * no configured webhook uses and that is not in the ignore list.
   */
  predicate IsOrphaned(hook: Webhook, configs: seq<WebhookConfig>, ignored: seq<string>)
  {
    hook.url.Some? && hook.url.value != ""
    && FindIndex(configs, ConfiguresUrl(hook.url.value)) == -1
    && hook.url.value !in ignored
  }

  /**
   * `findOrphanedWebhooks`: the orphaned hooks, in the order they were listed.
   * (The delivery-error warning it also logs is not part of its result.)
   */
  function FindOrphanedWebhooks(hooks: seq<Webhook>, configs: seq<WebhookConfig>, ignored: seq<string>)
    : (r: seq<Webhook>)
    ensures |r| <= |hooks|
    ensures forall h :: h in r <==> h in hooks && IsOrphaned(h, configs, ignored)
  {
    if hooks == [] then []
    else
      (if IsOrphaned(hooks[0], configs, ignored) then [hooks[0]] else [])
      + FindOrphanedWebhooks(hooks[1..], configs, ignored)
  }

  /** One delete per orphan, in the same order. */
  function Deletes(orphans: seq<Webhook>): (r: seq<Action>)
    requires forall h :: h in orphans ==> h.url.Some?
  {
    seq(|orphans|, k requires 0 <= k < |orphans| => Delete(orphans[k].id, orphans[k].url.value))
  }

  /** The `updates` list before archive bracketing: creates and updates, then orphan deletes when clean-up is on. */
  function Planned(configs: seq<WebhookConfig>, hooks: seq<Webhook>, cleanUp: CleanUp): seq<Action>
  {
    var updates := Updates(configs, hooks);
    var orphaned := FindOrphanedWebhooks(hooks, configs, cleanUp.ignoredWebhookUrls);
    if cleanUp.enabled && |orphaned| > 0 then updates + Deletes(orphaned) else updates
  }

  /** What `updateGitHubRepository` decides for `repository`, given its existing webhooks. */
  function Plan(repository: Repository, hooks: seq<Webhook>, config: Config): PlanResult
  {
    var webhookConfigs := WebhookConfigsFor(config.users, repository.owner);
    if webhookConfigs.None? then Skip(NoWebhookConfig)
    else if !HasAdmin(repository) then Skip(NoAdminPermission)
    else if !config.unarchiveRepository && repository.archived then Skip(RepositoryArchived)
    else
      var updates := Planned(webhookConfigs.value, hooks, config.cleanUp);
      if config.dryRun || |updates| == 0 then Hold(updates)
      else if config.unarchiveRepository && repository.archived then Execute([Unarchive] + updates + [Rearchive])
      else Execute(updates)
  }

  // ---------------------------------------------------------------------
  // The diff of configured against existing webhooks
  // ---------------------------------------------------------------------

  /**
   * A configured webhook is matched with the FIRST existing hook that has its
   * URL. No match: one create with that URL and those events. A match with
   * the same set of events: nothing. A match with another set: one update of
   * that hook's id to the configured events.
   */
  lemma DiffByFirstMatch(config: WebhookConfig, hooks: seq<Webhook>)
    ensures Unmatched(hooks, config.url) ==> Diff(config, hooks) == Some(Create(config.url, config.events))
    ensures forall i :: FirstWithUrl(hooks, i, config.url) ==>
              Diff(config, hooks)
              == if Elements(config.events) == Elements(hooks[i].events) then None
                 else Some(Update(hooks[i].id, config.events))
  {
    var k := FindIndex(hooks, HasUrl(config.url));
    if Unmatched(hooks, config.url) {
      forall i | 0 <= i < |hooks| ensures !HasUrl(config.url)(hooks[i]) {
        assert hooks[i] in hooks;
      }
    }
    forall i | FirstWithUrl(hooks, i, config.url)
      ensures Diff(config, hooks)
              == if Elements(config.events) == Elements(hooks[i].events) then None
                 else Some(Update(hooks[i].id, config.events))
    {
      assert HasUrl(config.url)(hooks[i]);
      assert k == i;
      ElementsEqualIsSetEquality(config.events, hooks[i].events);
    }
  }

  /** The actions of a concatenation of configured lists are the concatenation of their actions. */
  lemma {:induction false} UpdatesAppend(a: seq<WebhookConfig>, b: seq<WebhookConfig>, hooks: seq<Webhook>)
    ensures Updates(a + b, hooks) == Updates(a, hooks) + Updates(b, hooks)
  {
    if a == [] {
      assert a + b == b;
    } else {
      assert (a + b)[1..] == a[1..] + b;
      UpdatesAppend(a[1..], b, hooks);
    }
  }

  /**
   * Creates and updates follow the configured order: the action of entry `k`
   * (if any) comes after those of the entries before it and before those of
   * the entries after it.
   */
  lemma UpdatesInConfigOrder(configs: seq<WebhookConfig>, hooks: seq<Webhook>, k: nat)
    requires k < |configs|
    ensures Updates(configs, hooks)
            == Updates(configs[..k], hooks) + Emitted(Diff(configs[k], hooks)) + Updates(configs[k + 1..], hooks)
  {
    assert configs == configs[..k] + ([configs[k]] + configs[k + 1..]);
    UpdatesAppend(configs[..k], [configs[k]] + configs[k + 1..], hooks);
    UpdatesAppend([configs[k]], configs[k + 1..], hooks);
    assert Updates([configs[k]], hooks) == Emitted(Diff(configs[k], hooks)) by {
      assert [configs[k]][1..] == [];
    }
  }

  /** Creates and updates only, at most one per configured webhook. */
  lemma {:induction false} UpdatesAreCreatesAndUpdates(configs: seq<WebhookConfig>, hooks: seq<Webhook>)
    ensures |Updates(configs, hooks)| <= |configs|
    ensures forall a :: a in Updates(configs, hooks) ==> a.Create? || a.Update?
  {
    if configs != [] {
      UpdatesAreCreatesAndUpdates(configs[1..], hooks);
    }
  }

  /** The create one configured entry contributes: one exactly when its URL is unmatched. */
  lemma CreateOfEntry(c: WebhookConfig, hooks: seq<Webhook>, url: string, events: seq<string>)
    ensures multiset(Emitted(Diff(c, hooks)))[Create(url, events)]
            == if c == WebhookConfig(url, events) && Unmatched(hooks, url) then 1 else 0
  {
    DiffByFirstMatch(c, hooks);
    var k := FindIndex(hooks, HasUrl(c.url));
    if c == WebhookConfig(url, events) && !Unmatched(hooks, url) {
      var h :| h in hooks && h.url == Some(url);
      var i :| 0 <= i < |hooks| && hooks[i] == h;
      assert HasUrl(c.url)(hooks[i]);
    }
  }

  /**
   * Exactly one create per configured entry whose URL no existing hook has,
   * carrying that entry's URL and events; none for a URL that exists.
   */
  lemma {:induction false} CreatesForUnmatchedEntries(configs: seq<WebhookConfig>, hooks: seq<Webhook>, url: string, events: seq<string>)
    ensures multiset(Updates(configs, hooks))[Create(url, events)]
            == if Unmatched(hooks, url) then multiset(configs)[WebhookConfig(url, events)] else 0
  {
    if configs != [] {
      var c := configs[0];
      CreatesForUnmatchedEntries(configs[1..], hooks, url, events);
      CreateOfEntry(c, hooks, url, events);
      assert configs == [c] + configs[1..];
      assert multiset(configs) == multiset([c]) + multiset(configs[1..]);
      assert multiset(Updates(configs, hooks))
             == multiset(Emitted(Diff(c, hooks))) + multiset(Updates(configs[1..], hooks));
    }
  }

  /**
   * An update is planned with id `id` and events `events` exactly when some
   * configured entry with those events finds, as its first match, a hook
   * with that id whose events differ as a set.
   */
  lemma {:induction false} UpdatesTargetFirstMatch(configs: seq<WebhookConfig>, hooks: seq<Webhook>, id: HookId, events: seq<string>)
    ensures Update(id, events) in Updates(configs, hooks)
            <==> exists c, i :: c in configs && FirstWithUrl(hooks, i, c.url) && c.events == events
                                && hooks[i].id == id && Elements(events) != Elements(hooks[i].events)
  {
    if configs != [] {
      var c0 := configs[0];
      UpdatesTargetFirstMatch(configs[1..], hooks, id, events);
      assert configs == [c0] + configs[1..];
      DiffByFirstMatch(c0, hooks);
      var k := FindIndex(hooks, HasUrl(c0.url));
      if Update(id, events) in Emitted(Diff(c0, hooks)) {
        assert k >= 0 && FirstWithUrl(hooks, k, c0.url);
      }
    }
  }

  /**
   * No create or update is planned exactly when every configured webhook
   * already exists (first match by URL) with the same set of events.
   */
  lemma {:induction false} InSyncIffNoUpdates(configs: seq<WebhookConfig>, hooks: seq<Webhook>)
    ensures Updates(configs, hooks) == [] <==> forall c :: c in configs ==> InSync(c, hooks)
  {
    if configs != [] {
      var c0 := configs[0];
      InSyncIffNoUpdates(configs[1..], hooks);
      assert configs == [c0] + configs[1..];
      DiffByFirstMatch(c0, hooks);
      var k := FindIndex(hooks, HasUrl(c0.url));
      if k >= 0 {
        assert FirstWithUrl(hooks, k, c0.url);
        assert InSync(c0, hooks) <==> Elements(c0.events) == Elements(hooks[k].events);
      } else {
        assert !InSync(c0, hooks);
      }
    }
  }

  // ---------------------------------------------------------------------
  // Orphans and deletes
  // ---------------------------------------------------------------------

  /** A hook is orphaned iff its URL is present and non-empty, configured nowhere, and not ignored. */
  lemma OrphanedIff(hook: Webhook, configs: seq<WebhookConfig>, ignored: seq<string>)
    ensures IsOrphaned(hook, configs, ignored)
            <==> hook.url.Some? && hook.url.value != ""
                 && (forall c :: c in configs ==> c.url != hook.url.value)
                 && hook.url.value !in ignored
  {
    if hook.url.Some? {
      var u := hook.url.value;
      if forall c :: c in configs ==> c.url != u {
        forall i | 0 <= i < |configs| ensures !ConfiguresUrl(u)(configs[i]) {
          assert configs[i] in configs;
        }
      }
    }
  }

  /** Orphans keep the order of the existing-hook list. */
  lemma {:induction false} OrphansAppend(a: seq<Webhook>, b: seq<Webhook>, configs: seq<WebhookConfig>, ignored: seq<string>)
    ensures FindOrphanedWebhooks(a + b, configs, ignored)
            == FindOrphanedWebhooks(a, configs, ignored) + FindOrphanedWebhooks(b, configs, ignored)
  {
    if a == [] {
      assert a + b == b;
    } else {
      assert (a + b)[1..] == a[1..] + b;
      OrphansAppend(a[1..], b, configs, ignored);
    }
  }

  /** One delete per orphan, carrying its id and URL, in the orphans' order. */
  lemma DeletesOfOrphans(orphans: seq<Webhook>, id: HookId, url: string)
    requires forall h :: h in orphans ==> h.url.Some?
    ensures |Deletes(orphans)| == |orphans|
    ensures forall k :: 0 <= k < |orphans| ==> Deletes(orphans)[k] == Delete(orphans[k].id, orphans[k].url.value)
    ensures Delete(id, url) in Deletes(orphans) <==> exists h :: h in orphans && h.id == id && h.url == Some(url)
  {
    var d := Deletes(orphans);
    if exists h :: h in orphans && h.id == id && h.url == Some(url) {
      var h :| h in orphans && h.id == id && h.url == Some(url);
      var k :| 0 <= k < |orphans| && orphans[k] == h;
      assert d[k] == Delete(id, url);
    }
  }

  /**
   * The list before bracketing: creates and updates first, in configured
   * order, then (only with clean-up enabled) one delete per orphan; no
   * archive toggles; and no delete is followed by anything but deletes.
   */
  lemma PlannedShape(configs: seq<WebhookConfig>, hooks: seq<Webhook>, cleanUp: CleanUp, id: HookId, url: string)
    ensures var p := Planned(configs, hooks, cleanUp);
            && (forall a :: a in p ==> a != Unarchive && a != Rearchive)
            && (forall i, j :: 0 <= i < j < |p| && p[i].Delete? ==> p[j].Delete?)
            && p[..|Updates(configs, hooks)|] == Updates(configs, hooks)
            && (!cleanUp.enabled ==> forall a :: a in p ==> a.Create? || a.Update?)
            && (Delete(id, url) in p
                <==> cleanUp.enabled
                     && exists h :: h in hooks && IsOrphaned(h, configs, cleanUp.ignoredWebhookUrls)
                                    && h.id == id && h.url == Some(url))
  {
    var u := Updates(configs, hooks);
    var o := FindOrphanedWebhooks(hooks, configs, cleanUp.ignoredWebhookUrls);
    UpdatesAreCreatesAndUpdates(configs, hooks);
    DeletesOfOrphans(o, id, url);
    var p := Planned(configs, hooks, cleanUp);
    assert forall i :: 0 <= i < |u| ==> p[i] == u[i];
    forall i | 0 <= i < |u| ensures !p[i].Delete? {
      assert u[i] in u;
    }
    if cleanUp.enabled && |o| > 0 {
      assert p == u + Deletes(o);
      assert forall i :: |u| <= i < |p| ==> p[i] == Deletes(o)[i - |u|] && p[i].Delete?;
    } else {
      assert p == u;
      assert Delete(id, url) !in u;
      assert cleanUp.enabled ==> forall h :: h in hooks ==> !IsOrphaned(h, configs, cleanUp.ignoredWebhookUrls);
    }
  }

  // ---------------------------------------------------------------------
  // Gating, dry run and archive bracketing
  // ---------------------------------------------------------------------

  /**
   * A repository is skipped exactly when its owner has no entry, the token
   * lacks admin permission on it, or it is archived and unarchiving is off;
   * the reason given is the first of these checks that fails.
   */
  lemma SkipIff(repository: Repository, hooks: seq<Webhook>, config: Config)
    ensures var r := Plan(repository, hooks, config);
            var noEntry := forall u :: u in config.users ==> u.username != repository.owner;
            && (r.Skip? <==> noEntry || !HasAdmin(repository) || (repository.archived && !config.unarchiveRepository))
            && (r == Skip(NoWebhookConfig) <==> noEntry)
            && (r == Skip(NoAdminPermission) <==> !noEntry && !HasAdmin(repository))
  {
  }

  /**
   * An owner whose webhook list is empty has a webhook config: the repository
   * is never skipped for want of one, and it is skipped at all only by the
   * permission and archive checks. Every existing hook with a non-empty URL
   * that is not ignored is then an orphan, and the list holds nothing but
   * their deletes (none without clean-up).
   */
  lemma EmptyWebhookListIsNotSkipped(repository: Repository, hooks: seq<Webhook>, config: Config)
    requires WebhookConfigsFor(config.users, repository.owner) == Some([])
    ensures Plan(repository, hooks, config) != Skip(NoWebhookConfig)
    ensures !Plan(repository, hooks, config).Skip?
            <==> HasAdmin(repository) && (!repository.archived || config.unarchiveRepository)
    ensures forall h :: h in hooks ==>
              (IsOrphaned(h, [], config.cleanUp.ignoredWebhookUrls)
               <==> h.url.Some? && h.url.value != "" && h.url.value !in config.cleanUp.ignoredWebhookUrls)
    ensures Planned([], hooks, config.cleanUp)
            == if config.cleanUp.enabled
               then Deletes(FindOrphanedWebhooks(hooks, [], config.cleanUp.ignoredWebhookUrls))
               else []
  {
    forall h | h in hooks
      ensures IsOrphaned(h, [], config.cleanUp.ignoredWebhookUrls)
              <==> h.url.Some? && h.url.value != "" && h.url.value !in config.cleanUp.ignoredWebhookUrls
    {
      OrphanedIff(h, [], config.cleanUp.ignoredWebhookUrls);
    }
  }

  /**
   * The list is run exactly when the repository is not skipped, dry-run is
   * off and the list before bracketing is non-empty.
   */
  lemma ExecuteIff(repository: Repository, hooks: seq<Webhook>, config: Config)
    ensures var w := WebhookConfigsFor(config.users, repository.owner);
            Plan(repository, hooks, config).Execute?
            <==> && w.Some? && HasAdmin(repository)
                 && (!repository.archived || config.unarchiveRepository)
                 && !config.dryRun
                 && Planned(w.value, hooks, config.cleanUp) != []
  {
  }

  /**
   * In dry-run mode nothing is run: the full list is computed and held back,
   * archived or not.
   */
  lemma DryRunExecutesNothing(repository: Repository, hooks: seq<Webhook>, config: Config)
    requires config.dryRun
    ensures var r := Plan(repository, hooks, config);
            var w := WebhookConfigsFor(config.users, repository.owner);
            && !r.Execute?
            && (!r.Skip? ==> r == Hold(Planned(w.value, hooks, config.cleanUp)))
  {
  }

  /** With nothing to do, nothing is run, and an archived repository is not unarchived. */
  lemma NoArchiveToggleWithoutWork(repository: Repository, hooks: seq<Webhook>, config: Config)
    requires WebhookConfigsFor(config.users, repository.owner).Some?
    requires Planned(WebhookConfigsFor(config.users, repository.owner).value, hooks, config.cleanUp) == []
    ensures Plan(repository, hooks, config).Skip? || Plan(repository, hooks, config) == Hold([])
  {
  }

  /**
   * When the list is run for an archived repository it is bracketed: exactly
   * [Unarchive] + list + [Rearchive], two longer than the list, with the
   * toggles only at the two ends. A repository that is not archived runs the
   * list as it is, with no toggle.
   */
  lemma ArchiveBracketing(repository: Repository, hooks: seq<Webhook>, config: Config)
    requires Plan(repository, hooks, config).Execute?
    ensures var run := Plan(repository, hooks, config).run;
            var p := Planned(WebhookConfigsFor(config.users, repository.owner).value, hooks, config.cleanUp);
            && p != []
            && (repository.archived ==> config.unarchiveRepository && run == [Unarchive] + p + [Rearchive])
            && (repository.archived ==> |run| == |p| + 2)
            && (!repository.archived ==> run == p)
            && (Unarchive in run <==> repository.archived)
            && (Rearchive in run <==> repository.archived)
            && (forall i :: 0 <= i < |run| && run[i] == Unarchive ==> i == 0)
            && (forall i :: 0 <= i < |run| && run[i] == Rearchive ==> i == |run| - 1)
  {
    var w := WebhookConfigsFor(config.users, repository.owner).value;
    var p := Planned(w, hooks, config.cleanUp);
    PlannedShape(w, hooks, config.cleanUp, 0, "");
    var run := Plan(repository, hooks, config).run;
    if repository.archived {
      assert run == [Unarchive] + p + [Rearchive];
      forall i | 0 < i < |run| - 1 ensures run[i] != Unarchive && run[i] != Rearchive {
        assert run[i] == p[i - 1];
        assert p[i - 1] in p;
      }
    }
  }

  /** Defaults (dry run, no unarchiving, no clean-up): nothing is ever run, and no delete is even planned. */
  lemma DefaultsExecuteNothing(repository: Repository, hooks: seq<Webhook>, users: seq<UserEntry>)
    ensures var r := Plan(repository, hooks, WithDefaults(users));
            && !r.Execute?
            && (repository.archived ==> r.Skip?)
            && (r.Hold? ==> forall a :: a in r.updates ==> a.Create? || a.Update?)
  {
    var w := WebhookConfigsFor(users, repository.owner);
    if w.Some? {
      PlannedShape(w.value, hooks, WithDefaults(users).cleanUp, 0, "");
    }
  }

  // ---------------------------------------------------------------------
  // The delivery status of a hook is diagnostic only
  // ---------------------------------------------------------------------

  /** Two hook lists that differ at most in the last delivery status of their hooks. */
  ghost predicate SameButStatus(a: seq<Webhook>, b: seq<Webhook>)
  {
    |a| == |b|
    && forall i :: 0 <= i < |a| ==> a[i].(lastResponseCode := None) == b[i].(lastResponseCode := None)
  }

  lemma {:induction false} UpdatesIgnoreStatus(configs: seq<WebhookConfig>, a: seq<Webhook>, b: seq<Webhook>)
    requires SameButStatus(a, b)
    ensures Updates(configs, a) == Updates(configs, b)
  {
    if configs != [] {
      UpdatesIgnoreStatus(configs[1..], a, b);
      var c := configs[0];
      var i, j := FindIndex(a, HasUrl(c.url)), FindIndex(b, HasUrl(c.url));
      assert forall k :: 0 <= k < |a| ==> a[k].url == b[k].url && a[k].id == b[k].id && a[k].events == b[k].events by {
        forall k | 0 <= k < |a| ensures a[k].url == b[k].url && a[k].id == b[k].id && a[k].events == b[k].events {
          assert a[k].(lastResponseCode := None).url == a[k].url;
          assert b[k].(lastResponseCode := None).url == b[k].url;
        }
      }
      assert forall k :: 0 <= k < |a| ==> HasUrl(c.url)(a[k]) == HasUrl(c.url)(b[k]);
      assert i == j;
      assert Diff(c, a) == Diff(c, b);
    }
  }

  lemma {:induction false} OrphanDeletesIgnoreStatus(a: seq<Webhook>, b: seq<Webhook>, configs: seq<WebhookConfig>, ignored: seq<string>)
    requires SameButStatus(a, b)
    ensures SameButStatus(FindOrphanedWebhooks(a, configs, ignored), FindOrphanedWebhooks(b, configs, ignored))
    ensures Deletes(FindOrphanedWebhooks(a, configs, ignored)) == Deletes(FindOrphanedWebhooks(b, configs, ignored))
  {
    var oa, ob := FindOrphanedWebhooks(a, configs, ignored), FindOrphanedWebhooks(b, configs, ignored);
    if a != [] {
      assert a[0].(lastResponseCode := None) == b[0].(lastResponseCode := None);
      assert a[0].url == b[0].url && a[0].id == b[0].id;
      assert SameButStatus(a[1..], b[1..]);
      OrphanDeletesIgnoreStatus(a[1..], b[1..], configs, ignored);
      assert IsOrphaned(a[0], configs, ignored) == IsOrphaned(b[0], configs, ignored);
    }
    assert |oa| == |ob|;
    forall k | 0 <= k < |oa| ensures Deletes(oa)[k] == Deletes(ob)[k] {
      assert oa[k].(lastResponseCode := None) == ob[k].(lastResponseCode := None);
      assert oa[k].url == ob[k].url && oa[k].id == ob[k].id;
    }
  }

  /**
   * The last delivery status (whose error values only trigger a warning in
   * `findOrphanedWebhooks`) does not change the decision.
   */
  lemma StatusCodesDoNotAffectPlan(repository: Repository, a: seq<Webhook>, b: seq<Webhook>, config: Config)
    requires SameButStatus(a, b)
    ensures Plan(repository, a, config) == Plan(repository, b, config)
  {
    var w := WebhookConfigsFor(config.users, repository.owner);
    if w.Some? {
      UpdatesIgnoreStatus(w.value, a, b);
      OrphanDeletesIgnoreStatus(a, b, w.value, config.cleanUp.ignoredWebhookUrls);
    }
  }
}
