/** Pulling one program record out of one program block
    (`scrape_and_update_index`, extraction part).

    A block is the ordered list of its descendant elements in document order,
    plus its own flattened text; a parser lookup on the block is "the first
    element in that list satisfying a predicate". */
module Extractor {
  import opened Text

  /** One descendant element of a block: its tag name, its flattened text,
      its `.string` (the one string it holds when it has a single child, found
      through any chain of single-child tags; what a string filter matches
      against), and its `href` attribute if it has one. */
  datatype Element = Element(tag: string, text: string, soleString: Option<string>, href: Option<string>)

  datatype Block = Block(text: string, elements: seq<Element>)

  /** The record handed to the card renderer; `dateTime` is `""` when no
      date was recognised. */
  datatype Record = Record(title: string, dateTime: string, location: string, link: string)

  /** The parts of a run this model does not compute itself:
      the date/time regular expression (its two groups on a match), the
      phone/email and rupee-price substitutions, and the card renderer,
      which yields `None` when it raises. */
  datatype Oracles = Oracles(
    dateTimeMatch: string -> Option<(string, string)>,
    dropContact: string -> string,
    dropPrice: string -> string,
    renderCard: Record -> Option<string>)

  const TitleUnknown := "Program Title Unknown"
  const NoLink := "#"
  const LocationMissing := "Location/Mode Details Missing"
  const TitleTags := ["h3", "h4", "div", "p"]
  const TitleKeywords := ["Program", "Meditation", "Yoga", "Course"]
  const TeacherNote := "with Vishal Merani"
  const DateTimeSeparator := " | "

  /** A heading-like element whose stripped text is longer than 10 characters
      and names one of the keywords (case-sensitive, on the unstripped text). */
  predicate IsTitleElement(e: Element) {
    && e.tag in TitleTags
    && |Strip(e.text)| > 10
    && exists k | k in TitleKeywords :: Contains(e.text, k)
  }

  /** An anchor whose only text child mentions "Register" in any letter case. */
  predicate IsRegisterAnchor(e: Element) {
    e.tag == "a" && e.soleString.Some? && ContainsIgnoreCase(e.soleString.value, "Register")
  }

  /** Any element whose text holds six digits in a row (a pin code) or "Online". */
  predicate IsLocationElement(e: Element) {
    HasSixDigits(e.text) || Contains(e.text, "Online")
  }

  predicate NoneMatch(elements: seq<Element>, p: Element -> bool) {
    forall j :: 0 <= j < |elements| ==> !p(elements[j])
  }

  /** Element `i` is the first in document order that satisfies `p`. */
  predicate IsFirst(elements: seq<Element>, p: Element -> bool, i: nat) {
    i < |elements| && p(elements[i]) && forall j :: 0 <= j < i ==> !p(elements[j])
  }

  /** The parser's `find` with a predicate, over a block's elements. */
  function FindElement(elements: seq<Element>, p: Element -> bool): (r: Option<nat>)
    ensures r.Some? ==> IsFirst(elements, p, r.value)
    ensures r.None? <==> NoneMatch(elements, p)
  {
    if |elements| == 0 then None
    else if p(elements[0]) then Some(0)
    else match FindElement(elements[1..], p)
      case None => None
      case Some(i) => Some(i + 1)
  }

  lemma FirstIsUnique(elements: seq<Element>, p: Element -> bool, i: nat, k: nat)
    requires IsFirst(elements, p, i) && IsFirst(elements, p, k)
    ensures i == k
  {
  }

  /** The title: the stripped text of the first title element, else the placeholder.
      Either way it is longer than 10 characters, so never empty. */
  function TitleOf(b: Block): (title: string)
    ensures |title| > 10
    ensures NoneMatch(b.elements, IsTitleElement) ==> title == TitleUnknown
    ensures forall i: nat :: IsFirst(b.elements, IsTitleElement, i) ==> title == Strip(b.elements[i].text)
  {
    match FindElement(b.elements, IsTitleElement)
    case None => TitleUnknown
    case Some(i) =>
      assert forall k: nat :: IsFirst(b.elements, IsTitleElement, k) ==> k == i by {
        forall k: nat | IsFirst(b.elements, IsTitleElement, k) ensures k == i {
          FirstIsUnique(b.elements, IsTitleElement, i, k);
        }
      }
      Strip(b.elements[i].text)
  }

  /** The registration link: the `href` of the first Register anchor, `None` when
      that anchor has no `href` (the lookup raises), `"#"` when there is no such anchor. */
  function LinkOf(b: Block): (link: Option<string>)
    ensures NoneMatch(b.elements, IsRegisterAnchor) ==> link == Some(NoLink)
    ensures forall i: nat :: IsFirst(b.elements, IsRegisterAnchor, i) ==> link == b.elements[i].href
  {
    match FindElement(b.elements, IsRegisterAnchor)
    case None => Some(NoLink)
    case Some(i) =>
      assert forall k: nat :: IsFirst(b.elements, IsRegisterAnchor, k) ==> k == i by {
        forall k: nat | IsFirst(b.elements, IsRegisterAnchor, k) ensures k == i {
          FirstIsUnique(b.elements, IsRegisterAnchor, i, k);
        }
      }
      b.elements[i].href
  }

  /** `date_time_text`: empty without a match, else the stripped date group,
      the separator and the stripped time group. */
  function DateTimeText(m: Option<(string, string)>): (text: string)
    ensures text == "" <==> m.None?
  {
    match m
    case None => ""
    case Some((date, time)) => Strip(date) + DateTimeSeparator + Strip(time)
  }

  /** On a match the text is the stripped date, the separator and the stripped
      time. Splitting it at the first separator gives both groups back when the
      date contains no '|'. */
  lemma DateTimeSplits(date: string, time: string)
    ensures
      var text := DateTimeText(Some((date, time)));
      var d := Strip(date);
      && |text| == |d| + |DateTimeSeparator| + |Strip(time)|
      && text[..|d|] == d
      && text[|d|..|d| + |DateTimeSeparator|] == DateTimeSeparator
      && text[|d| + |DateTimeSeparator|..] == Strip(time)
    ensures '|' !in Strip(date) ==> Find(DateTimeText(Some((date, time))), DateTimeSeparator) == Some(|Strip(date)|)
  {
    if '|' !in Strip(date) {
      SeparatorFirstAfter(Strip(date), Strip(time));
    }
  }

  /** The lazy date group can end in " |" (page text "11-13 Dec, 2025 | 6:00 AM
      - 8:00 AM" gives the date "11-13 Dec, 2025 |"). Then the first separator
      lies inside the date, and splitting there cuts the date short. */
  lemma DateTimeMisSplit(date: string, time: string)
    requires |Strip(date)| >= 2 && Strip(date)[|Strip(date)| - 2..] == " |"
    ensures
      var text := DateTimeText(Some((date, time)));
      var d := Strip(date);
      && Find(text, DateTimeSeparator).Some?
      && Find(text, DateTimeSeparator).value + 2 <= |d|
      && text[..Find(text, DateTimeSeparator).value] != d
  {
    var d := Strip(date);
    var text := d + DateTimeSeparator + Strip(time);
    assert text[|d| - 2] == d[|d| - 2] == ' ' && text[|d| - 1] == d[|d| - 1] == '|';
    assert OccursAt(text, DateTimeSeparator, |d| - 2) by {
      assert text[|d| - 2..|d| + 1] == DateTimeSeparator;
    }
  }

  lemma SeparatorFirstAfter(d: string, t: string)
    requires Trimmed(d) && '|' !in d
    ensures Find(d + DateTimeSeparator + t, DateTimeSeparator) == Some(|d|)
  {
    var text := d + DateTimeSeparator + t;
    assert OccursAt(text, DateTimeSeparator, |d|) by {
      assert text[|d|..|d| + 3] == DateTimeSeparator;
    }
    forall j: nat | j < |d| ensures !OccursAt(text, DateTimeSeparator, j) {
      if j + 1 < |d| {
        assert text[j + 1] == d[j + 1] && d[j + 1] in d;
        assert text[j..j + 3][1] != DateTimeSeparator[1];
      } else {
        assert text[j] == d[|d| - 1];
        assert text[j..j + 3][0] != DateTimeSeparator[0];
      }
    }
  }

  /** The cleanup of a location element's text: strip, drop phone and e-mail,
      strip, cut from the teacher note on, strip, drop the price, strip. */
  function CleanLocation(text: string, o: Oracles): (cleaned: string)
    ensures Trimmed(cleaned)
  {
    var stripped := Strip(text);
    var noContact := Strip(o.dropContact(stripped));
    var noTeacher := Strip(TruncateAt(noContact, TeacherNote));
    Strip(o.dropPrice(noTeacher))
  }

  /** The location: the cleaned text of the first location element, else the
      placeholder. The cleaned text may be empty. */
  function LocationOf(b: Block, o: Oracles): (location: string)
    ensures Trimmed(location)
    ensures NoneMatch(b.elements, IsLocationElement) ==> location == LocationMissing
    ensures forall i: nat :: IsFirst(b.elements, IsLocationElement, i) ==> location == CleanLocation(b.elements[i].text, o)
  {
    match FindElement(b.elements, IsLocationElement)
    case None => LocationMissing
    case Some(i) =>
      assert forall k: nat :: IsFirst(b.elements, IsLocationElement, k) ==> k == i by {
        forall k: nat | IsFirst(b.elements, IsLocationElement, k) ensures k == i {
          FirstIsUnique(b.elements, IsLocationElement, i, k);
        }
      }
      CleanLocation(b.elements[i].text, o)
  }

  /** One block's record, or `None` when the block raises (a Register anchor
      without `href`). Each field falls back to its own default on its own. */
  function ExtractRecord(b: Block, o: Oracles): (r: Option<Record>)
    ensures r.None? <==> exists i: nat :: IsFirst(b.elements, IsRegisterAnchor, i) && b.elements[i].href.None?
    ensures r.Some? ==> NoneMatch(b.elements, IsTitleElement) ==> r.value.title == TitleUnknown
    ensures r.Some? ==> NoneMatch(b.elements, IsRegisterAnchor) ==> r.value.link == NoLink
    ensures r.Some? ==> NoneMatch(b.elements, IsLocationElement) ==> r.value.location == LocationMissing
    ensures r.Some? ==> (r.value.dateTime == "" <==> o.dateTimeMatch(b.text).None?)
    ensures r.Some? ==>
      && r.value.title == TitleOf(b)
      && Some(r.value.link) == LinkOf(b)
      && r.value.location == LocationOf(b, o)
      && r.value.dateTime == DateTimeText(o.dateTimeMatch(b.text))
  {
    match LinkOf(b)
    case None => None
    case Some(link) =>
      Some(Record(TitleOf(b), DateTimeText(o.dateTimeMatch(b.text)), LocationOf(b, o), link))
  }

  /** The rendered card of one block, or `None` when building it raises: either
      its record raises, or the renderer raises on the record. */
  function ExtractCard(b: Block, o: Oracles): (card: Option<string>)
    ensures ExtractRecord(b, o).None? ==> card.None?
    ensures ExtractRecord(b, o).Some? ==> card == o.renderCard(ExtractRecord(b, o).value)
  {
    match ExtractRecord(b, o)
    case None => None
    case Some(record) => o.renderCard(record)
  }

  /** The location can come out empty: the teacher-note cleanup erases a text
      that starts with it. */
  lemma LocationMayBeEmpty(o: Oracles)
    requires o.dropContact("with Vishal Merani - Online") == "with Vishal Merani - Online"
    requires o.dropPrice("") == ""
    ensures LocationOf(Block("", [Element("p", "with Vishal Merani - Online", None, None)]), o) == ""
  {
    var t := "with Vishal Merani - Online";
    assert Trimmed(t);
    assert OccursAt(t, "Online", 21) by {
      assert t[21..27] == "Online";
    }
    assert IsLocationElement(Element("p", t, None, None));
    assert OccursAt(t, TeacherNote, 0) by {
      assert t[0..18] == TeacherNote;
    }
    assert TruncateAt(t, TeacherNote) == "";
  }

  /** The link can come out empty: a Register anchor with an empty `href`. */
  lemma LinkMayBeEmpty()
    ensures LinkOf(Block("", [Element("a", "Register", Some("Register"), Some(""))])) == Some("")
  {
    var s := LowerAsciiString("Register");
    assert OccursAt(s, s, 0);
    assert IsRegisterAnchor(Element("a", "Register", Some("Register"), Some("")));
  }
}
