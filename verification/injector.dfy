/** Splicing the rendered program cards into the index page between the
    start and end markers (`scrape_and_update_index`, file-update part). */
module Injector {
  import opened Text

  /** What goes between the markers: a newline, the cards joined by blank
      lines in list order, and a newline. */
  function Region(cards: seq<string>): (r: string)
    ensures |r| >= 2 && r[0] == '\n' && r[|r| - 1] == '\n'
    ensures cards == [] ==> r == "\n\n"
  {
    "\n" + Join("\n\n", cards) + "\n"
  }

  /** The new file content, or `None` when a marker is missing and the file is
      left alone. Marker order is not checked, as in `scrape_and_update_index`. */
  function Splice(content: string, startMarker: string, endMarker: string, cards: seq<string>): (r: Option<string>)
    ensures r.None? <==> Find(content, startMarker).None? || Find(content, endMarker).None?
    ensures r.Some? ==>
      var keep := Find(content, startMarker).value + |startMarker|;
      var tail := Find(content, endMarker).value;
      && keep <= |content| && tail <= |content|
      && |r.value| == keep + |Region(cards)| + (|content| - tail)
      && r.value[..keep] == content[..keep]
      && r.value[keep..keep + |Region(cards)|] == Region(cards)
      && r.value[keep + |Region(cards)|..] == content[tail..]
  {
    var startIndex := Find(content, startMarker);
    var endIndex := Find(content, endMarker);
    if startIndex.None? || endIndex.None? then None
    else Some(content[..startIndex.value + |startMarker|] + Region(cards) + content[endIndex.value..])
  }

  /** With no cards, whatever stood between the markers is replaced by two
      newlines, and the text around and including the markers is kept. */
  lemma SpliceClearsRegion(before: string, stale: string, after: string, startMarker: string, endMarker: string)
    requires Find(before + startMarker + stale + endMarker + after, startMarker) == Some(|before|)
    requires Find(before + startMarker + stale + endMarker + after, endMarker) == Some(|before| + |startMarker| + |stale|)
    ensures Splice(before + startMarker + stale + endMarker + after, startMarker, endMarker, [])
      == Some(before + startMarker + "\n\n" + endMarker + after)
  {
    var content := before + startMarker + stale + endMarker + after;
    SpliceParts(content, startMarker, endMarker, []);
    assert content[..|before| + |startMarker|] == before + startMarker;
    assert content[|before| + |startMarker| + |stale|..] == endMarker + after;
    assert Region([]) == "\n\n";
    assert (before + startMarker) + "\n\n" + (endMarker + after) == before + startMarker + "\n\n" + endMarker + after;
  }

  /** The end marker does not occur in `before + endMarker` except at its very end,
      where it is appended: no occurrence inside the kept text and new region,
      and none that straddles into the end marker itself. */
  predicate EndMarkerFirstAfter(before: string, endMarker: string) {
    forall j: nat :: j < |before| ==> !OccursAt(before + endMarker, endMarker, j)
  }

  /** The output of a splice, spelled out. */
  lemma SpliceParts(content: string, startMarker: string, endMarker: string, cards: seq<string>)
    requires Splice(content, startMarker, endMarker, cards).Some?
    ensures Find(content, startMarker).value + |startMarker| <= |content|
    ensures Find(content, endMarker).value <= |content|
    ensures Splice(content, startMarker, endMarker, cards).value
      == content[..Find(content, startMarker).value + |startMarker|] + Region(cards) + content[Find(content, endMarker).value..]
  {
  }

  /** A text that agrees with `content` through the first start marker finds
      that marker at the same index. */
  lemma StartMarkerStays(content: string, out: string, startMarker: string, s: nat)
    requires Find(content, startMarker) == Some(s)
    requires s + |startMarker| <= |out| && out[..s + |startMarker|] == content[..s + |startMarker|]
    ensures Find(out, startMarker) == Some(s)
  {
    var keep := s + |startMarker|;
    OccursAtAgree(out, content, startMarker, s, keep);
    forall j: nat | j < s ensures !OccursAt(out, startMarker, j) {
      OccursAtAgree(out, content, startMarker, j, keep);
    }
  }

  /** In `before + rest`, where `rest` starts with the end marker, the end marker
      is first found right after `before` exactly when `EndMarkerFirstAfter` holds;
      otherwise it is found inside `before`. */
  lemma EndMarkerFound(before: string, rest: string, endMarker: string)
    requires OccursAt(rest, endMarker, 0)
    ensures Find(before + rest, endMarker).Some?
    ensures Find(before + rest, endMarker).value <= |before|
    ensures Find(before + rest, endMarker).value == |before| <==> EndMarkerFirstAfter(before, endMarker)
  {
    var out := before + rest;
    var n := |before| + |endMarker|;
    assert rest[..|endMarker|] == endMarker;
    assert out[..n] == (before + endMarker)[..n];
    OccursAtShift(before, rest, [], endMarker, 0);
    assert out == before + rest + [];
    var e2 := Find(out, endMarker).value;
    if EndMarkerFirstAfter(before, endMarker) {
      forall j: nat | j < |before| ensures !OccursAt(out, endMarker, j) {
        OccursAtAgree(out, before + endMarker, endMarker, j, n);
      }
    } else {
      var j: nat :| j < |before| && OccursAt(before + endMarker, endMarker, j);
      OccursAtAgree(out, before + endMarker, endMarker, j, n);
    }
  }

  /** Splicing the same cards into the output again gives the output back exactly
      when the end marker's first occurrence in the output is the one that follows
      the new region. */
  lemma {:induction false} SpliceTwice(content: string, startMarker: string, endMarker: string, cards: seq<string>)
    requires Splice(content, startMarker, endMarker, cards).Some?
    ensures
      var out := Splice(content, startMarker, endMarker, cards).value;
      var kept := content[..Find(content, startMarker).value + |startMarker|];
      (Splice(out, startMarker, endMarker, cards) == Some(out))
        <==> EndMarkerFirstAfter(kept + Region(cards), endMarker)
  {
    var out := Splice(content, startMarker, endMarker, cards).value;
    var s := Find(content, startMarker).value;
    var keep := s + |startMarker|;
    var kept := content[..keep];
    var region := Region(cards);
    var rest := content[Find(content, endMarker).value..];
    SpliceParts(content, startMarker, endMarker, cards);
    assert out == (kept + region) + rest;
    StartMarkerStays(content, out, startMarker, s);
    assert OccursAt(rest, endMarker, 0);
    EndMarkerFound(kept + region, rest, endMarker);
    SpliceParts(out, startMarker, endMarker, cards);
    var e2 := Find(out, endMarker).value;
    var again := out[..keep] + region + out[e2..];
    assert Splice(out, startMarker, endMarker, cards) == Some(again);
    if e2 == |kept + region| {
      assert out[..keep] == kept;
      assert out[e2..] == rest;
      assert again == out;
    } else {
      assert |again| > |out|;
    }
  }

  /** With the end marker wholly before the start marker, the text from the end
      marker through the start marker is written twice, so the output holds
      both markers twice and is longer than the input. */
  lemma SpliceReversedMarkers(content: string, startMarker: string, endMarker: string, cards: seq<string>)
    requires Splice(content, startMarker, endMarker, cards).Some?
    requires Find(content, endMarker).value + |endMarker| <= Find(content, startMarker).value
    ensures
      var out := Splice(content, startMarker, endMarker, cards).value;
      var s := Find(content, startMarker).value;
      var e := Find(content, endMarker).value;
      var shift := s + |startMarker| + |Region(cards)| - e;
      && shift > 0
      && OccursAt(out, endMarker, e) && OccursAt(out, endMarker, e + shift)
      && OccursAt(out, startMarker, s) && OccursAt(out, startMarker, s + shift)
      && |out| > |content|
  {
    var out := Splice(content, startMarker, endMarker, cards).value;
    var s := Find(content, startMarker).value;
    var e := Find(content, endMarker).value;
    var keep := s + |startMarker|;
    var front := content[..keep] + Region(cards);
    var tail := content[e..];
    SpliceParts(content, startMarker, endMarker, cards);
    assert out == front + tail + [];
    OccursAtAgree(out, content, endMarker, e, keep);
    OccursAtAgree(out, content, startMarker, s, keep);
    OccursInSuffix(content, endMarker, e, e);
    OccursInSuffix(content, startMarker, e, s);
    OccursAtShift(front, tail, [], endMarker, 0);
    OccursAtShift(front, tail, [], startMarker, s - e);
  }

  /** An occurrence at or after `from` is one in `s[from..]`, moved left. */
  lemma OccursInSuffix(s: string, pat: string, from: nat, at: nat)
    requires from <= at && OccursAt(s, pat, at)
    ensures OccursAt(s[from..], pat, at - from)
  {
    assert s[from..][at - from..at - from + |pat|] == s[at..at + |pat|];
  }

  /** Card `i` sits character for character in the region, after the leading newline and
      the cards before it with their blank lines; it is followed by a blank line,
      or by the closing newline when it is the last. `Splice` places the region
      right after the first start marker. */
  lemma RegionCardsInOrder(cards: seq<string>, i: nat)
    requires i < |cards|
    ensures OccursAt(Region(cards), cards[i], 1 + Offset("\n\n", cards, i))
    ensures OccursAt(Region(cards), if i + 1 < |cards| then "\n\n" else "\n", 1 + Offset("\n\n", cards, i) + |cards[i]|)
  {
    CardsInOrder("\n", Join("\n\n", cards), "\n", cards, i);
  }

  lemma CardsInOrder(lead: string, joined: string, closing: string, cards: seq<string>, i: nat)
    requires joined == Join("\n\n", cards) && i < |cards|
    requires |closing| > 0 && closing[0] == '\n'
    ensures OccursAt(lead + joined + closing, cards[i], |lead| + Offset("\n\n", cards, i))
    ensures OccursAt(lead + joined + closing, if i + 1 < |cards| then "\n\n" else "\n",
                     |lead| + Offset("\n\n", cards, i) + |cards[i]|)
  {
    JoinPartAt("\n\n", cards, i);
    OccursAtShift(lead, joined, closing, cards[i], Offset("\n\n", cards, i));
    if i + 1 < |cards| {
      OccursAtShift(lead, joined, closing, "\n\n", Offset("\n\n", cards, i) + |cards[i]|);
    } else {
      assert OccursAt(closing, "\n", 0);
      OccursAtShift(lead + joined, closing, [], "\n", 0);
      assert lead + joined + closing == lead + joined + closing + [];
    }
  }
}
