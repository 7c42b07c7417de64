/** The tag list on its way between the bookmark form, the server and the
    bookmark table: the form parses its free-text field into a list
    (apps/web/src/App.tsx line 75), the server stores the list joined with
    commas (apps/api/src/index.ts line 39), and the table splits the stored
    string on commas again to show one badge per tag (apps/web/src/App.tsx
    line 182). */
module Tags {
  import opened Wrappers
  import opened Strings
  import opened Whitespace

  const Comma: char := ','

  /** What the form parser promises of every tag it produces. */
  predicate WellFormedTag(t: string) {
    t != "" && Comma !in t && IsTrimmed(t)
  }

  /** `.filter(Boolean)` on strings: keeps the non-empty ones, each as
      often as it occurs, and drops the empty ones. */
  function DropEmpty(xs: seq<string>): (r: seq<string>)
    ensures forall i :: 0 <= i < |r| ==> r[i] != ""
    ensures forall t :: t in r ==> t in xs
    ensures r == [] <==> forall i :: 0 <= i < |xs| ==> xs[i] == ""
    ensures forall t :: t != "" ==> multiset(r)[t] == multiset(xs)[t]
  {
    if |xs| == 0 then []
    else
      var rest := DropEmpty(xs[1..]);
      DropEmptyStep(xs, rest);
      (if xs[0] == "" then [] else [xs[0]]) + rest
  }

  // The recursive case of DropEmpty: the head is kept in front of the
  // rest exactly when it is non-empty.
  lemma DropEmptyStep(xs: seq<string>, rest: seq<string>)
    requires |xs| > 0
    requires forall i :: 0 <= i < |rest| ==> rest[i] != ""
    requires forall t :: t in rest ==> t in xs[1..]
    requires rest == [] <==> forall i :: 0 <= i < |xs[1..]| ==> xs[1..][i] == ""
    requires forall t :: t != "" ==> multiset(rest)[t] == multiset(xs[1..])[t]
    ensures var r := (if xs[0] == "" then [] else [xs[0]]) + rest;
      && (forall i :: 0 <= i < |r| ==> r[i] != "")
      && (forall t :: t in r ==> t in xs)
      && (r == [] <==> forall i :: 0 <= i < |xs| ==> xs[i] == "")
      && (forall t :: t != "" ==> multiset(r)[t] == multiset(xs)[t])
  {
    assert xs == [xs[0]] + xs[1..];
    assert forall i :: 1 <= i < |xs| ==> xs[i] == xs[1..][i - 1];
  }

  /** `.map((t) => t.trim())`. */
  function TrimEach(xs: seq<string>): (r: seq<string>)
    ensures |r| == |xs| && forall i :: 0 <= i < |xs| ==> r[i] == Trim(xs[i])
  {
    MapEach(Trim, xs)
  }

  /** Applies `f` to every element, in order. */
  function MapEach<A, B>(f: A -> B, xs: seq<A>): seq<B> {
    seq(|xs|, i requires 0 <= i < |xs| => f(xs[i]))
  }

  /** The form's tag parser:
      `field.split(",").map((t) => t.trim()).filter(Boolean)`. Every tag is
      non-empty, comma-free and trimmed, and the list is empty exactly when
      the field holds nothing but commas and white space. */
  function ParseTagField(field: string): (tags: seq<string>)
    ensures forall i :: 0 <= i < |tags| ==> WellFormedTag(tags[i])
    ensures tags == [] <==>
      forall k :: 0 <= k < |field| ==> field[k] == Comma || IsWhitespace(field[k])
  {
    ParsedTagsWellFormed(field);
    ParseEmptyIff(field);
    DropEmpty(TrimEach(Split(field, Comma)))
  }

  // Each tag kept is the trim of one comma-free piece.
  lemma ParsedTagsWellFormed(field: string)
    ensures forall t :: t in DropEmpty(TrimEach(Split(field, Comma))) ==> WellFormedTag(t)
  {
    var pieces := Split(field, Comma);
    var trimmed := TrimEach(pieces);
    forall t | t in DropEmpty(trimmed)
      ensures WellFormedTag(t)
    {
      var i :| 0 <= i < |trimmed| && trimmed[i] == t;
      TrimmedPieceWellFormed(pieces[i]);
    }
  }

  // A non-empty trim of a comma-free piece is a well-formed tag.
  lemma TrimmedPieceWellFormed(p: string)
    requires Comma !in p
    ensures Trim(p) != "" ==> WellFormedTag(Trim(p))
  {
  }

  // Both directions of the empty-result characterisation of the parser.
  lemma ParseEmptyIff(field: string)
    ensures DropEmpty(TrimEach(Split(field, Comma))) == [] <==>
      forall k :: 0 <= k < |field| ==> field[k] == Comma || IsWhitespace(field[k])
  {
    var pieces := Split(field, Comma);
    var trimmed := TrimEach(pieces);
    if forall k :: 0 <= k < |field| ==> field[k] == Comma || IsWhitespace(field[k]) {
      PiecesAreContained(field, Comma);
      forall i | 0 <= i < |trimmed|
        ensures trimmed[i] == ""
      {
        ContainedChars(field, pieces[i]);
        forall k | 0 <= k < |pieces[i]|
          ensures IsWhitespace(pieces[i][k])
        {
          assert pieces[i][k] in field;
        }
      }
    }
    if DropEmpty(trimmed) == [] {
      JoinSplit(field, Comma);
      JoinChars(pieces, Comma);
      forall k | 0 <= k < |field|
        ensures field[k] == Comma || IsWhitespace(field[k])
      {
        assert field[k] in Join(pieces, Comma);
        if field[k] != Comma {
          var i :| 0 <= i < |pieces| && field[k] in pieces[i];
          assert trimmed[i] == "";
          var j :| 0 <= j < |pieces[i]| && pieces[i][j] == field[k];
        }
      }
    }
  }

  /** The server's `tags.join(",")`. */
  function JoinTags(tags: seq<string>): string {
    Join(tags, Comma)
  }

  /** The table's `bm.tags.split(",")`. A stored value of SQL NULL (a
      bookmark created without a tags list) makes the split throw a
      TypeError; that is the None result. Otherwise the badges are the
      comma-pieces of the stored string: one more than its commas, each
      a substring of it, and joined back they give the stored string. */
  function DisplayTags(stored: Option<string>): (shown: Option<seq<string>>)
    ensures shown.Some? <==> stored.Some?
    ensures shown.Some? ==> |shown.value| == Count(stored.value, Comma) + 1
    ensures shown.Some? ==>
      forall i :: 0 <= i < |shown.value| ==> Contains(stored.value, shown.value[i])
    ensures shown.Some? ==> JoinTags(shown.value) == stored.value
  {
    match stored
    case None => None
    case Some(s) =>
      PiecesAreContained(s, Comma);
      JoinSplit(s, Comma);
      Some(Split(s, Comma))
  }

  /** Round trip through storage: a non-empty list from the form parser,
      joined by the server and split by the table, comes back unchanged;
      an empty list is stored as "" and shows as the single tag "". */
  lemma {:induction false} ParsedTagsRoundTrip(field: string)
    ensures var tags := ParseTagField(field);
      tags != [] ==> DisplayTags(Some(JoinTags(tags))) == Some(tags)
    ensures var tags := ParseTagField(field);
      tags == [] ==> JoinTags(tags) == "" && DisplayTags(Some(JoinTags(tags))) == Some([""])
  {
    var tags := ParseTagField(field);
    if tags != [] {
      SplitJoin(tags, Comma);
    }
  }

  /** `.filter(Boolean)` distributes over concatenation. */
  lemma {:induction false} DropEmptyAppend(xs: seq<string>, ys: seq<string>)
    ensures DropEmpty(xs + ys) == DropEmpty(xs) + DropEmpty(ys)
    decreases |xs|
  {
    if |xs| > 0 {
      assert (xs + ys)[1..] == xs[1..] + ys;
      DropEmptyAppend(xs[1..], ys);
    } else {
      assert xs + ys == ys;
    }
  }

  /** The parser treats a comma as a hard boundary: the tags of
      `a + "," + b` are the tags of `a` followed by the tags of `b`. */
  lemma ParseAcrossComma(a: string, b: string)
    ensures ParseTagField(a + [Comma] + b) == ParseTagField(a) + ParseTagField(b)
  {
    var pa := Split(a, Comma);
    var pb := Split(b, Comma);
    SplitAcrossSeparator(a, b, Comma);
    TrimEachAppend(pa, pb);
    DropEmptyAppend(TrimEach(pa), TrimEach(pb));
    ParseUnfold(a + [Comma] + b);
  }

  // The parser as the composition of its three stages.
  lemma ParseUnfold(field: string)
    ensures ParseTagField(field) == DropEmpty(TrimEach(Split(field, Comma)))
  {
  }

  // Trimming each piece distributes over concatenation.
  lemma TrimEachAppend(xs: seq<string>, ys: seq<string>)
    ensures TrimEach(xs + ys) == TrimEach(xs) + TrimEach(ys)
  {
    MapEachAppend(Trim, xs, ys);
  }

  // Mapping distributes over concatenation.
  lemma MapEachAppend<A, B>(f: A -> B, xs: seq<A>, ys: seq<A>)
    ensures MapEach(f, xs + ys) == MapEach(f, xs) + MapEach(f, ys)
  {
  }

  /** A comma-free field is one tag, trimmed, unless it is all white
      space. Together with ParseAcrossComma this pins the parser down on
      every input. */
  lemma ParseCommaFree(p: string)
    requires Comma !in p
    ensures ParseTagField(p) == if AllWhitespace(p) then [] else [Trim(p)]
  {
    SplitFree(p, Comma);
    assert TrimEach([p]) == [Trim(p)];
  }
}
