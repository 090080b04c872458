/** The persistent record of one short link: a row of the `links` table. */
module Models {

  datatype Option<+T> = None | Some(value: T)

  /** `users.id`: the only thing the link registry knows about a user. */
  type UserId = int

  /** A point in time in whole seconds, all clocks read in UTC. */
  type Time = int

  /** `timedelta(days=1)` in seconds. */
  const Day: int := 86400

  /**
   * One row of `links`. `shortCode` is unique across the table, `userId` is
   * `None` for a link created by an anonymous caller, `expiresAt` is `None`
   * for a link that never expires, and `clicks` starts at 0.
   */
  datatype Link = Link(
    id: nat,
    originalUrl: string,
    shortCode: string,
    userId: Option<UserId>,
    createdAt: Time,
    expiresAt: Option<Time>,
    clicks: nat,
    lastAccessedAt: Option<Time>)
}
