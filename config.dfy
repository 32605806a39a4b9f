/**
 * lib/config.ts: the shape of the validated configuration document, with the
 * defaults the schema fills in. Reading and validating the file is not modelled.
 */
module Configuration {

  /** Whose repositories a `users` entry lists: a user's or an organisation's. */
  datatype UserType = User | Org

  /** One desired webhook: its target URL and the events it subscribes to. */
  datatype WebhookConfig = WebhookConfig(url: string, events: seq<string>)

  /** One `users` entry: an account and the webhooks its repositories should carry. */
  datatype UserEntry = UserEntry(kind: UserType, username: string, webhooks: seq<WebhookConfig>)

  /** The `cleanUp` section: whether orphaned webhooks are deleted, and which URLs are never touched. */
  datatype CleanUp = CleanUp(enabled: bool, ignoredWebhookUrls: seq<string>)

  /** The whole document, less the access token. */
  datatype Config = Config(
    dryRun: bool,
    users: seq<UserEntry>,
    unarchiveRepository: bool,
    cleanUp: CleanUp)

  /**
   * A document that sets only `users`: the schema defaults `dryRun` to true,
   * `unarchiveRepository` to false and `cleanUp` to disabled with no ignored URLs.
   */
  function WithDefaults(users: seq<UserEntry>): (c: Config)
    ensures c.users == users
    ensures c.dryRun && !c.unarchiveRepository
    ensures !c.cleanUp.enabled && c.cleanUp.ignoredWebhookUrls == []
  {
    Config(true, users, false, CleanUp(false, []))
  }
}
