# Webhook reconciler model

A Dafny model of the per-repository webhook reconciler of the
`update-webhooks` tool, with proofs. For one GitHub repository the tool does four things:

1. **Gating.** It skips the repository when:
   - its owner has no user entry,
   - the token lacks admin permission on it, or
   - it is archived and unarchiving is off.
2. **Diff.** It compares the configured webhooks (`url`, `events`) with the repository's existing webhooks.
   - The first existing hook with the same URL is the match.
   - Each entry yields a create, an update of that hook's events, or nothing.
   - Event lists are compared as sets (`elementsEqual`).
3. **Orphan deletes.** With clean-up enabled, it appends one delete per existing hook whose URL is non-empty, configured nowhere and not ignored.
4. **Execution.** Unless dry-run is on or the list is empty, it brackets the list with unarchive/rearchive for an archived repository. It then awaits each request in turn. The first request that throws ends the run.

Files:

- `optional.dfy`: an `Option` type.
- `array.dfy` (module `Arrays`): `elementsEqual` and its set-equality properties.
- `config.dfy` (module `Configuration`): the configuration shapes and the defaults the schema fills in.
- `github.dfy` (module `GitHub`): the repository and webhook records as fetched.
- `reconcile.dfy` (module `Reconcile`): the pure decision logic.
  - `Plan` returns `Skip(reason)`, `Hold(list)` (dry run or nothing to do) or `Execute(run)`.
  - `FindOrphanedWebhooks` is `findOrphanedWebhooks`.
- `execute.dfy` (module `Execution`): the imperative part.
  - The class `GitHubClient` records every mutating request it sends, and knows which request positions the remote rejects.
  - `UpdateGitHubRepository` builds the `updates` list step by step (`push`, `unshift`) and runs it with a loop that stops at the first failure.
- `replan.dfy` (module `Replan`): what accepted requests do to GitHub's webhook list, and the proof that re-planning after a fully successful run finds nothing to do. The proof assumes the configured URLs are distinct and the hook ids are distinct.

JavaScript semantics modelled explicitly:

- An empty `webhooks` array is truthy, so an owner with no webhooks is not skipped.
- `permissions?.admin` is false when `permissions` is absent.
- A hook whose `config.url` is absent matches no configured URL and is never an orphan.
- An empty URL is never an orphan either.
- `find`/`findIndex` return the first match, or -1.

## Model

| member | source | states |
|---|---|---|
| Arrays.ElementsEqualIsSetEquality | lib/array.ts:1-5 | `elementsEqual(a, b)` holds exactly when the two arrays have the same set of elements; it is false whenever the set sizes differ |
| Arrays.ElementsEqualIsEquivalence | lib/array.ts:1-5 | `elementsEqual` is reflexive, symmetric and transitive |
| Arrays.ElementsEqualIgnoresOrderAndDuplicates | lib/array.ts:2-4 | replacing either argument by an array with the same elements (in any order, with any repetitions) does not change the result |
| Arrays.PermutationIsElementsEqual | lib/array.ts:2-4 | an array and any permutation of it are `elementsEqual` |
| Arrays.DuplicateIsElementsEqual | lib/array.ts:2-4 | inserting a copy of an element anywhere keeps the arrays `elementsEqual` |
| Arrays.ElementsEqualExample | lib/array.ts:2-4 | `[x, y]` and `[y, x, x]` are `elementsEqual` |
| Reconcile.FindIndex | bin/update-webhooks.ts:72-74 | `find`/`findIndex`: the result is -1 exactly when no element satisfies the predicate; otherwise it is the first index that does |
| Reconcile.WebhookConfigsFor | bin/update-webhooks.ts:36-38 | no result exactly when no user entry has the repository owner's name; otherwise the webhooks of the first entry with that name |
| Reconcile.DiffByFirstMatch | bin/update-webhooks.ts:70-121 | an entry whose URL no hook has yields a create with that URL and those events; otherwise the first hook with that URL decides: nothing when its events are set-equal, else an update of its id to the configured events |
| Reconcile.UpdatesInConfigOrder | bin/update-webhooks.ts:70-121 | the action of entry `k` comes after those of the entries before it and before those of the entries after it |
| Reconcile.UpdatesAppend | bin/update-webhooks.ts:70-121 | the create/update list of a concatenation of entry lists is the concatenation of their lists |
| Reconcile.UpdatesAreCreatesAndUpdates | bin/update-webhooks.ts:70-121 | the diff yields at most one action per entry, each a create or an update |
| Reconcile.CreatesForUnmatchedEntries | bin/update-webhooks.ts:70-74 | the number of creates with a URL and events equals the number of entries with that URL and those events when no hook has the URL, and is zero otherwise |
| Reconcile.UpdatesTargetFirstMatch | bin/update-webhooks.ts:72-97 | an update with id and events is planned exactly when some entry with those events has, as its first match, a hook with that id whose events differ as a set |
| Reconcile.InSyncIffNoUpdates | bin/update-webhooks.ts:70-121 | no create or update is planned exactly when every entry's first match exists and has the configured events as a set |
| Reconcile.FindOrphanedWebhooks | bin/update-webhooks.ts:191-225 | the orphans are exactly the existing hooks that are orphaned, and there are no more of them than hooks |
| Reconcile.OrphanedIff | bin/update-webhooks.ts:211-216 | a hook is orphaned exactly when its URL is present, non-empty, equal to no configured URL and not in the ignore list |
| Reconcile.OrphansAppend | bin/update-webhooks.ts:197 | the orphans keep the order of the existing-hook list |
| Reconcile.DeletesOfOrphans | bin/update-webhooks.ts:130-146 | one delete per orphan, in orphan order, carrying its id and URL; a delete is present exactly when some orphan has that id and URL |
| Reconcile.PlannedShape | bin/update-webhooks.ts:70-147 | creates and updates come first, in entry order, and deletes only after them. There are no archive toggles. Without clean-up there is no delete. A delete is present exactly when clean-up is on and an existing hook with that id and URL is orphaned |
| Reconcile.SkipIff | bin/update-webhooks.ts:36-62 | a repository is skipped exactly when its owner has no entry, the token lacks admin permission, or it is archived while unarchiving is off; the reason is the first failing check |
| Reconcile.EmptyWebhookListIsNotSkipped | bin/update-webhooks.ts:36-62 | an owner with an empty webhook list is never skipped for a missing webhook config; it is skipped exactly when the token lacks admin permission or the repository is archived while unarchiving is off. Every hook with a non-empty, non-ignored URL is then an orphan, and the list holds only their deletes (none without clean-up) |
| Reconcile.ExecuteIff | bin/update-webhooks.ts:36-158 | the list is run exactly when the repository passes the gates, dry-run is off and the list is non-empty |
| Reconcile.DryRunExecutesNothing | bin/update-webhooks.ts:156-158 | in dry-run mode nothing is run; a repository that passes the gates holds the full list |
| Reconcile.NoArchiveToggleWithoutWork | bin/update-webhooks.ts:149-158 | with nothing to do the repository is skipped or holds an empty list, so no unarchive or rearchive is sent |
| Reconcile.ArchiveBracketing | bin/update-webhooks.ts:160-183 | an archived repository's run is exactly `[Unarchive] + list + [Rearchive]`, two longer than the list, with the toggles only at its two ends; a repository that is not archived runs the list itself with no toggle |
| Reconcile.DefaultsExecuteNothing | lib/config.ts:66-91 | with the schema defaults (dry run, no unarchiving, no clean-up) nothing is run, an archived repository is skipped and no delete is planned |
| Reconcile.UpdatesIgnoreStatus | bin/update-webhooks.ts:70-121 | the creates and updates do not depend on the hooks' last response status |
| Reconcile.OrphanDeletesIgnoreStatus | bin/update-webhooks.ts:197-224 | the orphans and their deletes do not depend on the hooks' last response status |
| Reconcile.StatusCodesDoNotAffectPlan | bin/update-webhooks.ts:199-223 | two hook lists that differ only in last response status give the same decision: the error warning is diagnostic only |
| Execution.FirstRejected | bin/update-webhooks.ts:185-188 | the position of the first rejected request of a run, with every earlier one accepted; none exactly when all are accepted |
| Execution.Attempted | bin/update-webhooks.ts:185-188 | the requests sent are a prefix of the run: all of it without a failure, up to and including the failing request otherwise |
| Execution.RearchiveOnlyAfterSuccess | bin/update-webhooks.ts:160-188 | for an archived repository the unarchive request is always sent first, and the rearchive request is sent exactly when every request before it is accepted |
| Execution.GitHubClient.Send | bin/update-webhooks.ts:84-90 | one request is appended to the trace; it succeeds exactly when the remote does not reject its position |
| Execution.GitHubClient.RunSequentially | bin/update-webhooks.ts:185-188 | the loop sends the requests in order and stops after the first rejected one; it reports that position, and the trace grows by exactly the requests sent |
| Execution.GitHubClient.UpdateGitHubRepository | bin/update-webhooks.ts:31-189 | the method decides what `Plan` decides. A skipped, dry-run or empty list sends nothing. A run list is sent in order, up to and including its first rejected request |
| Replan.ApplyUpdates | bin/update-webhooks.ts:70-121 | with distinct configured URLs and hook ids, accepted creates and updates bring every entry in sync, leave the first hook of every other URL alone and neither add nor remove an orphan |
| Replan.ApplyDeletes | bin/update-webhooks.ts:129-147 | accepted orphan deletes remove exactly the hooks with the orphans' ids and leave the first hook of every configured URL alone |
| Replan.PlannedSettles | bin/update-webhooks.ts:70-147 | with distinct configured URLs and hook ids, planning again after the list has been applied gives an empty list |
| Replan.ReplanAfterSuccessIsEmpty | bin/update-webhooks.ts:31-189 | with distinct configured URLs and hook ids, once every request of a run has been accepted, planning again finds nothing to do |
| Replan.DuplicateUrlsBreakIdempotence | bin/update-webhooks.ts:70-121 | with two entries for one URL, the first plan creates two hooks and the next plan updates the first of them, so re-planning does not settle |

## Left out

- `main` (bin/update-webhooks.ts:12-29): the `Promise.all` fan-out over users and repositories. This is concurrency and plumbing, so the model covers one repository.
- Logging (`console.info`/`console.warn`), including the "need to apply N updates" count and the delivery-error warning. The warning fires for a present, non-zero status code outside 200–299 other than 429. `Reconcile.StatusCodesDoNotAffectPlan` proves that it changes nothing.
- Loading and validation of the configuration (lib/config.ts): reading the file, JSON parsing and the zod schema. These are I/O and a library whose code is not part of this model. The model does not check the event-name enumeration or the "at least one event" rule, and event names are plain strings. The GitHub token is not modelled. The schema defaults are `Configuration.WithDefaults`.
- The paginated fetches (lib/github/listGitHubRepositories.ts, lib/github/listGitHubRepositoryWebhooks.ts). These are network calls whose code is not part of this model. Their results are inputs. The source fetches the webhook list only after the gating checks; the model takes it as a parameter that a skipped repository ignores.
- Request details of the Octokit calls: the hook name `web`, `active`, the JSON content type, `insecure_ssl` and the owner/repo arguments. An action records only what varies (URL, id, events, archive toggle).
- The remote's answers are a fixed set of rejected request positions. Errors carry no payload, and the exception that escapes `updateGitHubRepository` is modelled only by where the run stops.
- A failed request ends the repository's run: the `for` loop awaits each request, and a throwing request leaves the loop. Nothing after the first failure is sent, including the rearchive.
- Replan.ReplanAfterSuccessIsEmpty: idempotence is proved only for configured URLs that are distinct within the owner's entry and existing hook ids that are distinct. `Replan.DuplicateUrlsBreakIdempotence` shows that it fails for duplicate URLs. GitHub's own effect of a request is modelled: creates append a hook with a fresh id, updates replace the events of the hook with that id, and deletes remove it.
