/** The driver: it loads a chat, replaces its messages by the chronological
    text messages and locates the target speaker's replies among them. */
module Driver {
  import opened Messages
  import Seqs
  import Chronology
  import Preprocessing

  /** What the driver leaves in `chat.messages` for an export with messages `ms`. */
  function Preprocessed(ms: seq<Message>): (r: seq<Message>)
    requires AllTimestamped(ms)
    ensures AllTimestamped(r) && Chronology.SortedByTime(r)
    ensures forall m <- r :: IsTextMessage(m)
    ensures forall m :: multiset(r)[m] == if IsTextMessage(m) then multiset(ms)[m] else 0
    ensures forall t: nat :: Seqs.Filter(Chronology.AtTime(t), r)
                            == Seqs.Filter(Chronology.AtTime(t), Preprocessing.GetTextMessages(ms))
  {
    var sorted := Chronology.GetSortedMessages(ms);
    Preprocessing.TextMessagesKeepOrder(sorted);
    Preprocessing.TextMessagesMultiplicity(sorted);
    Preprocessing.SortThenFilterIsFilterThenSort(ms);
    var text := Preprocessing.GetTextMessages(ms);
    assert forall t: nat :: Seqs.Filter(Chronology.AtTime(t), Chronology.GetSortedMessages(text))
                            == Seqs.Filter(Chronology.AtTime(t), text) by {
      forall t: nat
        ensures Seqs.Filter(Chronology.AtTime(t), Chronology.GetSortedMessages(text))
                == Seqs.Filter(Chronology.AtTime(t), text)
      {
        Chronology.SortIsStable(text, t);
      }
    }
    Preprocessing.GetTextMessages(sorted)
  }

  /** A chat export: its identifier and its messages, which the driver overwrites. */
  class Chat {
    const id: int
    var messages: seq<Message>

    constructor (id: int, messages: seq<Message>)
      ensures this.id == id && this.messages == messages
    {
      this.id := id;
      this.messages := messages;
    }

    /** Lines 59-62 of `main`: sort, then filter, then locate the anchors. */
    method Preprocess() returns (modelIndex: seq<nat>)
      requires AllTimestamped(messages)
      modifies this
      ensures messages == Preprocessed(old(messages))
      ensures modelIndex == Preprocessing.GetIndexOfModelChat(id, messages)
      ensures forall k :: 0 <= k < |modelIndex| ==>
                modelIndex[k] < |messages| && IsModelMessage(id, messages[modelIndex[k]])
      ensures forall i :: 0 <= i < |messages| && IsModelMessage(id, messages[i]) ==> i in modelIndex
    {
      messages := Chronology.GetSortedMessages(messages);
      messages := Preprocessing.GetTextMessages(messages);
      modelIndex := Preprocessing.GetIndexOfModelChat(id, messages);
    }
  }
}
