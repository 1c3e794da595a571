/**
 * src/stores/sentences.js: the client-side list of sentences. `add` and
 * `update` send the raw form `StripLinks(input)` and the display form
 * `FormatText(raw)` of both texts, then record the server's answer in the
 * list; `remove` drops every element with the id. An `id` argument is
 * None when it is undefined, and then it matches exactly the elements without
 * an id, as `===` does. The server round trip is a
 * parameter: the parsed answer, or None when the body was not JSON.
 */
module SentenceStore {
  import opened Wrappers
  import opened Db
  import opened Markup

  /**
   * An element of the list: a parsed answer object, with its `id` (None when
   * the object has none, as an error answer) and its text fields (None when
   * it carries none).
   */
  datatype Item = Item(id: Option<int>, fields: Option<Fields>)

  /** The four text columns sent for user input: raw forms first, display forms rendered from them. */
  function Prepare(text: string, translation: string): Fields {
    var rawText := StripLinks(text);
    var rawTranslation := StripLinks(translation);
    Fields(FormatText(rawText), FormatText(rawTranslation), rawText, rawTranslation)
  }

  /** `findIndex(s => s.id === id)`: the first position holding the id, or -1. */
  function FirstIndex(s: seq<Item>, id: Option<int>): (i: int)
    ensures i == -1 <==> forall k | 0 <= k < |s| :: s[k].id != id
    ensures i != -1 ==> 0 <= i < |s| && s[i].id == id && forall k | 0 <= k < i :: s[k].id != id
  {
    if s == [] then -1
    else if s[0].id == id then 0
    else
      var j := FirstIndex(s[1..], id);
      if j == -1 then -1 else j + 1
  }

  /** The list after `sentences.value[idx] = item` when `idx !== -1`. */
  function Replaced(s: seq<Item>, id: Option<int>, item: Item): (r: seq<Item>)
    ensures |r| == |s|
    ensures forall k | 0 <= k < |s| && k != FirstIndex(s, id) :: r[k] == s[k]
    ensures FirstIndex(s, id) != -1 ==> r[FirstIndex(s, id)] == item
  {
    var i := FirstIndex(s, id);
    if i == -1 then s else s[i := item]
  }

  /** `filter(s => s.id !== id)`. */
  function Without(s: seq<Item>, id: Option<int>): (r: seq<Item>)
    ensures |r| <= |s|
    ensures forall k | 0 <= k < |r| :: r[k].id != id
    ensures forall x: Item | x.id != id :: multiset(r)[x] == multiset(s)[x]
  {
    if s == [] then []
    else
      assert s == [s[0]] + s[1..];
      if s[0].id == id then Without(s[1..], id) else [s[0]] + Without(s[1..], id)
  }

  /** Filtering a concatenation filters each part in place: the survivors keep their order. */
  lemma {:induction false} WithoutAppend(s: seq<Item>, t: seq<Item>, id: Option<int>)
    ensures Without(s + t, id) == Without(s, id) + Without(t, id)
    decreases |s|
  {
    if s == [] {
      assert s + t == t;
    } else {
      assert (s + t)[1..] == s[1..] + t;
      WithoutAppend(s[1..], t, id);
    }
  }

  /** A list without the id is left as it is, so removing twice is removing once. */
  lemma {:induction false} WithoutAbsent(s: seq<Item>, id: Option<int>)
    requires forall k | 0 <= k < |s| :: s[k].id != id
    ensures Without(s, id) == s
  {
    if s != [] {
      WithoutAbsent(s[1..], id);
      assert s == [s[0]] + s[1..];
    }
  }

  lemma RemoveTwice(s: seq<Item>, id: Option<int>)
    ensures Without(Without(s, id), id) == Without(s, id)
  {
    WithoutAbsent(Without(s, id), id);
  }

  /** Removing what was just added with that id gives what removing it before would have given. */
  lemma RemoveUndoesAdd(s: seq<Item>, item: Item, id: Option<int>)
    requires item.id == id
    ensures Without(s + [item], id) == Without(s, id)
  {
    WithoutAppend(s, [item], id);
    assert Without([item], id) == [];
  }

  /** An update whose id is in no element leaves the list unchanged. */
  lemma ReplacedMissing(s: seq<Item>, id: Option<int>, item: Item)
    requires forall k | 0 <= k < |s| :: s[k].id != id
    ensures Replaced(s, id, item) == s
  {
  }

  /** Text without markup characters is sent unchanged in all four columns. */
  lemma PreparePlain(text: string, translation: string)
    requires Plain(text) && Plain(translation)
    ensures Prepare(text, translation) == Fields(text, translation, text, translation)
  {
    PlainKept(text);
    PlainKept(translation);
  }

  lemma PlainKept(s: string)
    requires Plain(s)
    ensures StripLinks(s) == s && FormatText(s) == s
  {
    PlainLacks(s);
    FormatTextUnmatched(s);
  }

  /** One wiki link alone loses its target to the raw form. */
  lemma StripOneLink(target: string, caption: string)
    requires target != [] && Avoids(target, {'|', ']'})
    requires caption != [] && Plain(caption)
    ensures StripLinks("[[" + target + "|" + caption + "]]") == "<b>" + caption + "</b>"
  {
    PlainLacks(caption);
    StripLinksRewrites(target, caption, []);
    assert StripLinks([]) == [];
    assert "[[" + target + "|" + caption + "]]" + [] == "[[" + target + "|" + caption + "]]";
    assert "<b>" + caption + "</b>" + [] == "<b>" + caption + "</b>";
  }

  /** A bold caption without markup is displayed as it is stored. */
  lemma BoldCaptionKept(caption: string)
    requires Plain(caption)
    ensures FormatText("<b>" + caption + "</b>") == "<b>" + caption + "</b>"
  {
    PlainLacks(caption);
    var raw := "<b>" + caption + "</b>";
    assert '[' !in raw && '{' !in raw && '*' !in raw;
    FormatTextPlain(raw);
  }

  /** A wiki link is stored with its caption in bold and its target dropped, in both forms. */
  lemma PrepareLink(target: string, caption: string, translation: string)
    requires target != [] && Avoids(target, {'|', ']'})
    requires caption != [] && Plain(caption)
    requires Plain(translation)
    ensures Prepare("[[" + target + "|" + caption + "]]", translation)
      == Fields("<b>" + caption + "</b>", translation, "<b>" + caption + "</b>", translation)
  {
    StripOneLink(target, caption);
    BoldCaptionKept(caption);
    PlainKept(translation);
  }

  /** The store's state: the `sentences` ref. */
  class Store {
    var sentences: seq<Item>

    constructor ()
      ensures sentences == []
    {
      sentences := [];
    }

    /** `load`: replace the list with the server's, unless the answer was not ok. */
    method Load(reply: Option<seq<Item>>)
      modifies this
      ensures sentences == reply.GetOr(old(sentences))
    {
      if reply.Some? {
        sentences := reply.value;
      }
    }

    /**
     * `add`: what is sent, and the list with the answer appended; when the
     * answer is not JSON a local item with id `now` stands in for it.
     */
    method Add(text: string, translation: string, reply: Option<Item>, now: int) returns (sent: Fields)
      modifies this
      ensures sent.rawText == StripLinks(text) && sent.rawTranslation == StripLinks(translation)
      ensures sent.text == FormatText(sent.rawText) && sent.translation == FormatText(sent.rawTranslation)
      ensures |sentences| == |old(sentences)| + 1
      ensures sentences[..|old(sentences)|] == old(sentences)
      ensures sentences[|old(sentences)|] == reply.GetOr(Item(Some(now), Some(sent)))
    {
      sent := Prepare(text, translation);
      var item := if reply.Some? then reply.value else Item(Some(now), Some(sent));
      sentences := sentences + [item];
    }

    /** The search `findIndex` does, as a loop over the list. */
    method Find(id: Option<int>) returns (idx: int)
      ensures idx == FirstIndex(sentences, id)
    {
      idx := 0;
      while idx < |sentences| && sentences[idx].id != id
        invariant 0 <= idx <= |sentences|
        invariant forall k | 0 <= k < idx :: sentences[k].id != id
      {
        idx := idx + 1;
      }
      if idx == |sentences| {
        idx := -1;
      }
    }

    /**
     * `update`: what is sent, and the list with the first element holding
     * the id replaced by the answer; an answer that is not JSON throws
     * before the list is touched.
     */
    method Update(id: Option<int>, text: string, translation: string, reply: Option<Item>) returns (sent: Fields)
      modifies this
      ensures sent.rawText == StripLinks(text) && sent.rawTranslation == StripLinks(translation)
      ensures sent.text == FormatText(sent.rawText) && sent.translation == FormatText(sent.rawTranslation)
      ensures sentences == if reply.Some? then Replaced(old(sentences), id, reply.value) else old(sentences)
    {
      sent := Prepare(text, translation);
      if reply.Some? {
        var idx := Find(id);
        if idx != -1 {
          sentences := sentences[idx := reply.value];
        }
      }
    }

    /** `remove`: the list without any element holding the id, whatever the server answered. */
    method Remove(id: Option<int>)
      modifies this
      ensures sentences == Without(old(sentences), id)
    {
      sentences := Without(sentences, id);
    }
  }
}
