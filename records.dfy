/**
 * The plain data records of the system (`Newsletter`, `User`, `Subscription`).
 * They carry no behaviour of their own and are compared by value.
 */
module Records {
  import opened Wrappers

  /**
   * A timestamp. `day` is the calendar day number that `datetime.date()`
   * yields; `minuteOfDay` is the rest, which only the text formatting uses.
   */
  datatype DateTime = DateTime(day: int, minuteOfDay: int)

  /** One article of a feed. A `url` of `None` is an article without a link. */
  datatype Newsletter = Newsletter(
    title: string,
    content: string,
    publicationDate: DateTime,
    url: Option<string>)

  datatype User = User(email: string, passwordHash: string, profileInfo: Option<string>)

  datatype Subscription = Subscription(user: User, newsletter: Newsletter, subscribedAt: DateTime)
}
