/** The preprocessing steps of a chat export: keep the plain text messages and
    find the messages of the target speaker. */
module Preprocessing {
  import opened Wrappers
  import opened Messages
  import Seqs
  import Chronology

  /** `get_text_messages`: the text messages, in their original order. */
  function GetTextMessages(ms: seq<Message>): (r: seq<Message>)
    ensures |r| <= |ms|
    ensures forall m <- r :: m in ms && IsTextMessage(m)
    ensures forall i :: 0 <= i < |ms| && IsTextMessage(ms[i]) ==> ms[i] in r
  {
    Seqs.Filter(IsTextMessage, ms)
  }

  /** `get_index_of_model_chat`: the positions of the target speaker's messages. */
  function GetIndexOfModelChat(chatId: int, ms: seq<Message>): (r: seq<nat>)
    ensures forall k :: 0 <= k < |r| ==> r[k] < |ms|
    ensures forall k, l :: 0 <= k < l < |r| ==> r[k] < r[l]
    ensures forall i :: 0 <= i < |ms| ==> (i in r <==> IsModelMessage(chatId, ms[i]))
    ensures forall i :: 0 <= i < |ms| && ms[i].fromId == None ==> i !in r
  {
    Seqs.Positions(m => IsModelMessage(chatId, m), ms)
  }

  /** The text messages are exactly the messages at the ascending positions
      of the text messages: an order-preserving selection that drops no text
      message and keeps nothing else. */
  lemma TextMessagesSelectExactly(ms: seq<Message>)
    ensures var idx := Seqs.Positions(IsTextMessage, ms);
            && |GetTextMessages(ms)| == |idx|
            && (forall k :: 0 <= k < |idx| ==> GetTextMessages(ms)[k] == ms[idx[k]])
            && (forall k, l :: 0 <= k < l < |idx| ==> idx[k] < idx[l])
            && (forall i :: 0 <= i < |ms| ==> (i in idx <==> IsTextMessage(ms[i])))
  {
    Seqs.FilterAtPositions(IsTextMessage, ms);
  }

  /** Every text message is kept as often as it occurs; others never. */
  lemma TextMessagesMultiplicity(ms: seq<Message>)
    ensures forall m :: multiset(GetTextMessages(ms))[m]
                        == if IsTextMessage(m) then multiset(ms)[m] else 0
  {
    Seqs.FilterMultiplicity(IsTextMessage, ms);
  }

  /** Filtering already filtered messages changes nothing. */
  lemma TextMessagesIdempotent(ms: seq<Message>)
    ensures GetTextMessages(GetTextMessages(ms)) == GetTextMessages(ms)
  {
    Seqs.FilterIdempotent(IsTextMessage, ms);
  }

  /** Filtering a chronological sequence leaves it chronological. */
  lemma {:induction false} TextMessagesKeepOrder(ms: seq<Message>)
    requires AllTimestamped(ms) && Chronology.SortedByTime(ms)
    ensures AllTimestamped(GetTextMessages(ms))
    ensures Chronology.SortedByTime(GetTextMessages(ms))
  {
    if ms != [] {
      var tail := ms[1..];
      Chronology.TailKeepsOrder(ms);
      TextMessagesKeepOrder(tail);
      Chronology.HeadIsOldest(ms);
      Seqs.FilterCons(IsTextMessage, ms[0], tail);
      assert ms == [ms[0]] + tail;
      var r := GetTextMessages(tail);
      assert forall y <- r :: y in ms;
      if IsTextMessage(ms[0]) {
        Chronology.PrependKeepsOrder(ms[0], r);
      }
    }
  }

  /** Sorting first and filtering second, as the driver does, gives the same
      messages as filtering first and sorting second. */
  lemma SortThenFilterIsFilterThenSort(ms: seq<Message>)
    requires AllTimestamped(ms)
    ensures AllTimestamped(GetTextMessages(ms))
    ensures GetTextMessages(Chronology.GetSortedMessages(ms))
            == Chronology.GetSortedMessages(GetTextMessages(ms))
  {
    Chronology.FilterCommutesWithSort(IsTextMessage, ms);
  }

  /** The anchors pick out, in order, exactly the target speaker's messages. */
  lemma AnchorsSelectModelMessages(chatId: int, ms: seq<Message>)
    ensures var idx := GetIndexOfModelChat(chatId, ms);
            var own := Seqs.Filter(m => IsModelMessage(chatId, m), ms);
            |idx| == |own| && forall k :: 0 <= k < |idx| ==> ms[idx[k]] == own[k]
  {
    Seqs.FilterAtPositions(m => IsModelMessage(chatId, m), ms);
  }
}
