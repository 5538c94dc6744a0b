/** The parts of an exported chat message that the preprocessing reads. */
module Messages {
  import opened Wrappers
  import Decimal

  /** One formatted run of a message's text; only its text is read. */
  datatype TextEntity = TextEntity(text: string)

  /** A message of the export. Absent JSON fields are `None`. */
  datatype Message = Message(
    id: int,
    dateUnixtime: string,
    fromId: Option<string>,
    mediaType: Option<string>,
    photo: Option<string>,
    textEntities: seq<TextEntity>)

  /** The send time is a string that `int` can parse. */
  predicate HasTimestamp(m: Message) {
    Decimal.IsDecimal(m.dateUnixtime)
  }

  /** Every message of `ms` has a parsable send time. */
  predicate AllTimestamped(ms: seq<Message>) {
    forall m <- ms :: HasTimestamp(m)
  }

  /** The send time in seconds since the epoch, `int(date_unixtime)`. */
  function Timestamp(m: Message): nat
    requires HasTimestamp(m)
  {
    Decimal.ParseDecimal(m.dateUnixtime)
  }

  /** A plain text message: no media, no photo, and at least one text entity. */
  predicate IsTextMessage(m: Message) {
    m.mediaType == None && m.photo == None && m.textEntities != []
  }

  /** The sender tag of the target speaker of chat `chatId`: `"user" + str(chat.id)`. */
  function TargetTag(chatId: int): (tag: string)
    ensures |tag| > 4 && tag[..4] == "user"
  {
    "user" + Decimal.IntToString(chatId)
  }

  /** A message sent by the target speaker of chat `chatId`. */
  predicate IsModelMessage(chatId: int, m: Message) {
    m.fromId == Some(TargetTag(chatId))
  }

  /** The tags of two different chats never coincide, so the locator cannot
      take one chat's speaker for another's. */
  lemma TargetTagInjective(a: int, b: int)
    requires TargetTag(a) == TargetTag(b)
    ensures a == b
  {
    assert TargetTag(a)[4..] == Decimal.IntToString(a);
    assert TargetTag(b)[4..] == Decimal.IntToString(b);
    Decimal.IntToStringInjective(a, b);
  }
}
