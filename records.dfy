/**
 * The two record types of the chat application: a registered account and a
 * stored message. Both are plain values; the stores that hold them are classes.
 */
module Records {
  import opened JavaLang

  /** An account. Every field is a Java `String` that may be null. */
  datatype User = User(
    name: Option<string>,
    surname: Option<string>,
    username: Option<string>,
    password: Option<string>,
    cellphoneNumber: Option<string>)

  /** One stored message, as `new MessageEntry(id, hash, recipient, message)` builds it. */
  datatype MessageEntry = MessageEntry(
    messageId: string,
    messageHash: string,
    recipient: string,
    message: string)
}
