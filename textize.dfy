/** Flattening a message's text entities into one string: Python's
    `" ".join(texts)`. */
module Textize {
  import opened Messages

  /** The sum of the lengths of `parts`. */
  function TotalLength(parts: seq<string>): nat {
    if parts == [] then 0 else |parts[0]| + TotalLength(parts[1..])
  }

  /** `" ".join(parts)`: the parts in order, one space between neighbours. */
  function JoinWithSpace(parts: seq<string>): (r: string)
    ensures parts == [] ==> r == ""
    ensures parts != [] ==> |r| == TotalLength(parts) + |parts| - 1
    ensures parts != [] ==> r[..|parts[0]|] == parts[0]
  {
    if parts == [] then ""
    else if |parts| == 1 then parts[0]
    else parts[0] + " " + JoinWithSpace(parts[1..])
  }

  /** Python's `s.split(" ")`: the pieces between single spaces, empty pieces kept. */
  function SplitOnSpace(s: string): (r: seq<string>)
    ensures |r| >= 1
  {
    if s == [] then [""]
    else if s[0] == ' ' then [""] + SplitOnSpace(s[1..])
    else
      var rest := SplitOnSpace(s[1..]);
      [[s[0]] + rest[0]] + rest[1..]
  }

  /** The texts of a message's entities, in order. */
  function EntityTexts(entities: seq<TextEntity>): (r: seq<string>)
    ensures |r| == |entities|
    ensures forall k :: 0 <= k < |r| ==> r[k] == entities[k].text
  {
    seq(|entities|, k requires 0 <= k < |entities| => entities[k].text)
  }

  /** `get_textized_text_entities`: a message's entity texts joined by single spaces. */
  function GetTextizedTextEntities(m: Message): (r: string)
    ensures m.textEntities == [] ==> r == ""
    ensures |m.textEntities| == 1 ==> r == m.textEntities[0].text
    ensures m.textEntities != [] ==>
              |r| == TotalLength(EntityTexts(m.textEntities)) + |m.textEntities| - 1
    ensures |m.textEntities| >= 2 ==>
              var n := |m.textEntities|;
              r == JoinWithSpace(EntityTexts(m.textEntities[..n - 1])) + " " + m.textEntities[n - 1].text
  {
    var texts := EntityTexts(m.textEntities);
    var n := |m.textEntities|;
    if n >= 2 then
      var init := EntityTexts(m.textEntities[..n - 1]);
      assert texts == init + [texts[n - 1]];
      JoinSnoc(init, texts[n - 1]);
      JoinWithSpace(texts)
    else
      JoinWithSpace(texts)
  }

  /** A string with no space in it. */
  predicate SpaceFree(s: string) {
    ' ' !in s
  }

  /** Splitting a space-free word followed by a space and more text. */
  lemma {:induction false} SplitAfterWord(w: string, rest: string)
    requires SpaceFree(w)
    ensures SplitOnSpace(w + " " + rest) == [w] + SplitOnSpace(rest)
  {
    if w == [] {
      assert w + " " + rest == [' '] + rest;
      assert ([' '] + rest)[1..] == rest;
    } else {
      assert (w + " " + rest)[0] == w[0];
      assert (w + " " + rest)[1..] == w[1..] + " " + rest;
      SplitAfterWord(w[1..], rest);
      assert [w[0]] + w[1..] == w;
    }
  }

  /** Splitting a space-free word gives the word alone. */
  lemma {:induction false} SplitWord(w: string)
    requires SpaceFree(w)
    ensures SplitOnSpace(w) == [w]
  {
    if w != [] {
      SplitWord(w[1..]);
      assert [w[0]] + w[1..] == w;
    }
  }

  /** Splitting on spaces recovers the joined parts when no part contains a
      space: the separators stand exactly between consecutive parts. */
  lemma {:induction false} SplitJoin(parts: seq<string>)
    requires parts != []
    requires forall p <- parts :: SpaceFree(p)
    ensures SplitOnSpace(JoinWithSpace(parts)) == parts
  {
    if |parts| == 1 {
      SplitWord(parts[0]);
    } else {
      assert parts[0] in parts;
      assert forall p <- parts[1..] :: p in parts;
      SplitJoin(parts[1..]);
      SplitAfterWord(parts[0], JoinWithSpace(parts[1..]));
      assert [parts[0]] + parts[1..] == parts;
    }
  }

  /** Appending a part adds one space and the part at the end. */
  lemma {:induction false} JoinSnoc(parts: seq<string>, last: string)
    requires parts != []
    ensures JoinWithSpace(parts + [last]) == JoinWithSpace(parts) + " " + last
  {
    if |parts| == 1 {
      assert parts + [last] == [parts[0], last];
      assert [parts[0], last][1..] == [last];
    } else {
      assert (parts + [last])[0] == parts[0];
      assert (parts + [last])[1..] == parts[1..] + [last];
      JoinSnoc(parts[1..], last);
    }
  }
}
