/**
 * The class page's thread list: long threads are cut to a few "lines" of words with a
 * "Show more" button, and the set of expanded threads is replaced by an updated copy
 * each time a button is pressed.
 */
module ClassPage {
  import opened JsString
  import opened Store

  /** The page's estimate of how many words fit on one line. */
  const WordsPerLine: nat := 8

  /** `truncateText`'s default `maxLines`, the only value the page passes. */
  const DefaultMaxLines: nat := 2

  /** `text.split(' ')`: words separated by single spaces (runs of spaces give empty words). */
  function Words(text: string): seq<string> {
    Split(text, ' ')
  }

  /** `truncateText(text, maxLines)`. */
  function TruncateText(text: string, maxLines: nat): string {
    var words := Words(text);
    var maxWords := maxLines * WordsPerLine;
    if |words| <= maxWords then text
    else Join(words[..maxWords], ' ') + "..."
  }

  /** `rumor.content.split(' ').length > 16`: the threshold the page uses to offer "Show more". */
  predicate ShouldTruncate(content: string) {
    |Words(content)| > 16
  }

  /** What the card shows: the whole content when expanded or short, otherwise its truncation. */
  function Displayed(content: string, isExpanded: bool): string {
    if isExpanded || !ShouldTruncate(content) then content else TruncateText(content, DefaultMaxLines)
  }

  /** Text of at most `maxLines * 8` words comes back unchanged. */
  lemma TruncateKeepsShort(text: string, maxLines: nat)
    requires |Words(text)| <= maxLines * WordsPerLine
    ensures TruncateText(text, maxLines) == text
  {
  }

  /**
   * Longer text becomes a prefix of itself followed by `...`; with at least one line, the
   * prefix is strictly shorter than the text and is followed in it by a space.
   */
  lemma TruncatedIsPrefix(text: string, maxLines: nat)
    requires |Words(text)| > maxLines * WordsPerLine
    ensures var r := TruncateText(text, maxLines);
      && |r| >= 3 && r[|r| - 3..] == "..."
      && |r| - 3 <= |text| && r[..|r| - 3] == text[..|r| - 3]
      && (maxLines > 0 ==> |r| - 3 < |text| && text[|r| - 3] == ' ')
  {
    var words := Words(text);
    var k := maxLines * WordsPerLine;
    var body := Join(words[..k], ' ');
    var r := TruncateText(text, maxLines);
    assert r == body + "...";
    assert r[..|r| - 3] == body;
    if k > 0 {
      JoinSplit(text, ' ');
      JoinCut(words, k, ' ');
      assert text == body + [' '] + Join(words[k..], ' ');
      assert text[..|body|] == body;
      assert text[|body|] == ' ';
    }
  }

  /** The kept prefix consists of exactly the first `maxLines * 8` words of the text. */
  lemma TruncatedWords(text: string, maxLines: nat)
    requires maxLines > 0 && |Words(text)| > maxLines * WordsPerLine
    ensures var r := TruncateText(text, maxLines);
      |r| >= 3 && Words(r[..|r| - 3]) == Words(text)[..maxLines * WordsPerLine]
  {
    var words := Words(text);
    var k := maxLines * WordsPerLine;
    var r := TruncateText(text, maxLines);
    assert r[..|r| - 3] == Join(words[..k], ' ');
    SplitJoin(words[..k], ' ');
  }

  /** The "Show more" threshold holds exactly when the default truncation changes the text. */
  lemma ShouldTruncateIffChanged(content: string)
    ensures ShouldTruncate(content) <==> TruncateText(content, DefaultMaxLines) != content
  {
    if ShouldTruncate(content) {
      TruncatedIsPrefix(content, DefaultMaxLines);
      var r := TruncateText(content, DefaultMaxLines);
      assert r[|r| - 3] == '.';
      if r == content {
        assert content[|r| - 3] == ' ';
      }
    }
  }

  /** A card shows something other than its content exactly when it is collapsed and long. */
  lemma DisplayedShortened(content: string, isExpanded: bool)
    ensures Displayed(content, isExpanded) != content <==> !isExpanded && ShouldTruncate(content)
  {
    ShouldTruncateIffChanged(content);
  }

  /** The set of thread ids toggled open. */
  function Toggle(ids: set<Id>, id: Id): set<Id> {
    if id in ids then ids - {id} else ids + {id}
  }

  /** Toggling flips the membership of `id` and of no other id. */
  lemma ToggleFlipsOnly(ids: set<Id>, id: Id, other: Id)
    ensures (id in Toggle(ids, id)) <==> id !in ids
    ensures other != id ==> (other in Toggle(ids, id) <==> other in ids)
  {
  }

  /** Toggling the same id twice restores the set. */
  lemma ToggleTwice(ids: set<Id>, id: Id)
    ensures Toggle(Toggle(ids, id), id) == ids
  {
  }

  /** A JavaScript `Set` of thread ids, with the operations `toggleExpanded` uses. */
  class IdSet {
    var ids: set<Id>

    constructor ()
      ensures ids == {}
    {
      ids := {};
    }

    /** `new Set(source)`: a distinct object with the same members. */
    constructor Copy(source: IdSet)
      ensures ids == source.ids
    {
      ids := source.ids;
    }

    method Has(id: Id) returns (present: bool)
      ensures present <==> id in ids
    {
      present := id in ids;
    }

    method Add(id: Id)
      modifies this
      ensures ids == old(ids) + {id}
    {
      ids := ids + {id};
    }

    method Delete(id: Id)
      modifies this
      ensures ids == old(ids) - {id}
    {
      ids := ids - {id};
    }
  }

  /**
   * `toggleExpanded(rumorId)`: the current set is copied, the copy gains or loses the id,
   * and the copy becomes the new state; the current set object is left as it was.
   */
  method ToggleExpanded(expanded: IdSet, id: Id) returns (next: IdSet)
    ensures fresh(next) && next.ids == Toggle(expanded.ids, id)
    ensures unchanged(expanded)
  {
    next := new IdSet.Copy(expanded);
    var present := next.Has(id);
    if present {
      next.Delete(id);
    } else {
      next.Add(id);
    }
  }
}
