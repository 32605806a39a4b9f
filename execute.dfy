/**
 * The imperative half of `updateGitHubRepository` in bin/update-webhooks.ts:
 * the `updates` list built by `push` and `unshift`, and the loop that awaits
 * each remote call in turn. The Octokit client is a class that records every
 * mutating request it sends; whether the remote accepts a request is fixed
 * when the client is made (`rejected`: the positions, counted over all
 * requests, that fail).
 */
module Execution {
  import opened Optional
  import opened Configuration
  import opened GitHub
  import opened Reconcile

  /**
   * The first of `n` consecutive requests, numbered from `start`, that the
   * remote rejects; None when it accepts them all.
   */
  function FirstRejected(start: nat, n: nat, rejected: set<nat>): (r: Option<nat>)
    ensures r.Some? ==> r.value < n && start + r.value in rejected
                        && forall p :: start <= p < start + r.value ==> p !in rejected
    ensures r.None? <==> forall p :: start <= p < start + n ==> p !in rejected
    decreases n
  {
    if n == 0 then None
    else if start in rejected then Some(0)
    else match FirstRejected(start + 1, n - 1, rejected)
      case None => None
      case Some(k) => Some(k + 1)
  }

  /** The requests of `run` that are sent when the one at `failedAt` (if any) throws. */
  function Attempted(run: seq<Action>, failedAt: Option<nat>): (r: seq<Action>)
    requires failedAt.Some? ==> failedAt.value < |run|
    ensures r <= run
    ensures failedAt.None? ==> r == run
    ensures failedAt.Some? ==> |r| == failedAt.value + 1
  {
    match failedAt
    case None => run
    case Some(k) => run[..k + 1]
  }

  /**
   * Execution is strictly sequential and stops at the first failure: for an
   * archived repository the unarchive request is always sent first, and the
   * rearchive request is sent exactly when every request before it succeeded.
   */
  lemma RearchiveOnlyAfterSuccess(repository: Repository, hooks: seq<Webhook>, config: Config, start: nat, rejected: set<nat>)
    requires Plan(repository, hooks, config).Execute? && repository.archived
    ensures var run := Plan(repository, hooks, config).run;
            var sent := Attempted(run, FirstRejected(start, |run|, rejected));
            && sent != [] && sent[0] == Unarchive
            && (Rearchive in sent <==> forall p :: start <= p < start + |run| - 1 ==> p !in rejected)
  {
    ArchiveBracketing(repository, hooks, config);
    var run := Plan(repository, hooks, config).run;
    var f := FirstRejected(start, |run|, rejected);
    var sent := Attempted(run, f);
    if f.Some? {
      assert sent == run[..f.value + 1];
      if f.value < |run| - 1 {
        assert Rearchive !in sent by {
          forall i | 0 <= i < |sent| ensures sent[i] != Rearchive {
            assert sent[i] == run[i];
          }
        }
      } else {
        assert sent == run;
      }
    }
  }

  /** Octokit, as far as the reconciler uses it for changes. */
  class GitHubClient {
    /** Every mutating request sent, in order. */
    var calls: seq<Action>
    /** Positions, in `calls`, of the requests the remote rejects. */
    const rejected: set<nat>

    constructor (rejected: set<nat>)
      ensures calls == [] && this.rejected == rejected
    {
      calls := [];
      this.rejected := rejected;
    }

    /** Send one request and wait for its answer. */
    method Send(a: Action) returns (ok: bool)
      modifies this
      ensures calls == old(calls) + [a]
      ensures ok <==> |old(calls)| !in rejected
    {
      ok := |calls| !in rejected;
      calls := calls + [a];
    }

    /**
     * `for (const update of updates) await update()`: each request is sent
     * only after the previous one succeeded; the first failure ends the loop.
     */
    method RunSequentially(updates: seq<Action>) returns (failedAt: Option<nat>)
      modifies this
      ensures failedAt == FirstRejected(|old(calls)|, |updates|, rejected)
      ensures calls == old(calls) + Attempted(updates, failedAt)
    {
      failedAt := None;
      var i := 0;
      while i < |updates|
        invariant 0 <= i <= |updates|
        invariant calls == old(calls) + updates[..i]
        invariant forall p :: |old(calls)| <= p < |old(calls)| + i ==> p !in rejected
      {
        var ok := Send(updates[i]);
        if !ok {
          failedAt := Some(i);
          assert updates[..i] + [updates[i]] == updates[..i + 1];
          return;
        }
        i := i + 1;
      }
    }

    /**
     * `updateGitHubRepository` for one repository whose webhooks were listed
     * as `existingWebhooks`. It decides what `Plan` says; a skipped, dry-run
     * or empty list sends nothing, and a run list is sent in order up to and
     * including its first failure.
     */
    method UpdateGitHubRepository(repository: Repository, existingWebhooks: seq<Webhook>, config: Config)
      returns (plan: PlanResult, failedAt: Option<nat>)
      modifies this
      ensures plan == Plan(repository, existingWebhooks, config)
      ensures !plan.Execute? ==> calls == old(calls) && failedAt.None?
      ensures plan.Execute? ==>
                && failedAt == FirstRejected(|old(calls)|, |plan.run|, rejected)
                && calls == old(calls) + Attempted(plan.run, failedAt)
    {
      failedAt := None;
      var webhookConfigs := WebhookConfigsFor(config.users, repository.owner);
      if webhookConfigs.None? {
        return Skip(NoWebhookConfig), None;
      }
      if !HasAdmin(repository) {
        return Skip(NoAdminPermission), None;
      }
      if !config.unarchiveRepository && repository.archived {
        return Skip(RepositoryArchived), None;
      }

      var updates := Updates(webhookConfigs.value, existingWebhooks);
      var orphanedWebhooks :=
        FindOrphanedWebhooks(existingWebhooks, webhookConfigs.value, config.cleanUp.ignoredWebhookUrls);
      if config.cleanUp.enabled && |orphanedWebhooks| > 0 {
        updates := updates + Deletes(orphanedWebhooks);
      }

      if config.dryRun || |updates| == 0 {
        return Hold(updates), None;
      }

      if config.unarchiveRepository && repository.archived {
        updates := [Unarchive] + updates;
        updates := updates + [Rearchive];
      }

      plan := Execute(updates);
      failedAt := RunSequentially(updates);
    }
  }
}
