/**
 * lib/github/: the parts of GitHub's repository and webhook listings that the
 * reconciler reads. The paginated fetches themselves are not modelled; their
 * results are inputs.
 */
module GitHub {
  import opened Optional

  /** GitHub's numeric webhook identifier. */
  type HookId = nat

  /** The caller's permissions on a repository (only `admin` is consulted). */
  datatype Permissions = Permissions(admin: bool)

  /** A repository descriptor: `owner.login`, `name`, `archived` and the optional `permissions`. */
  datatype Repository = Repository(
    owner: string,
    name: string,
    archived: bool,
    permissions: Option<Permissions>)

  /**
   * An existing webhook: its id, its `config.url` (which GitHub may omit), its
   * event list and the status code of its last delivery (`last_response.code`,
   * which may be null).
   */
  datatype Webhook = Webhook(
    id: HookId,
    url: Option<string>,
    events: seq<string>,
    lastResponseCode: Option<int>)

  /** `repository.permissions?.admin` is truthy. */
  predicate HasAdmin(repository: Repository)
  {
    repository.permissions.Some? && repository.permissions.value.admin
  }
}
