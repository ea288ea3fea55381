/**
 * The track-size list of a split pane: an ordered list of size tokens such as
 * "1fr" or "37.5%", one per pane, written out as a CSS grid template whose
 * pane tracks are separated by a fixed splitter track ("min-content").
 */
module GridTemplates {
  import opened Wrappers
  import opened JsText

  /** The splitter track a template is split on and joined with unless another is given. */
  const DEFAULT_SPLITTER: string := "min-content"

  /** The size token `add` and `set` write unless another is given. */
  const DEFAULT_SIZE: string := "1fr"

  /** What `build` puts between two entries. */
  function Separator(splitter: string): string {
    " " + splitter + " "
  }

  /**
   * JavaScript truthiness of `parsedTemplate[idx]`: the index is in range and
   * the entry is not the empty string. `remove` and `set` act only then.
   */
  predicate Present(entries: seq<string>, idx: int) {
    0 <= idx < |entries| && entries[idx] != ""
  }

  /** The entries after `add(idx, value)`: `unshift` for a negative index, `splice(idx, 0, value)` otherwise. */
  function Inserted(entries: seq<string>, idx: int, value: string): (r: seq<string>)
    ensures |r| == |entries| + 1
    ensures idx < 0 ==> r == [value] + entries
    ensures idx >= |entries| ==> r == entries + [value]
    ensures 0 <= idx <= |entries| ==>
      r[idx] == value && r[..idx] == entries[..idx] && r[idx + 1..] == entries[idx..]
  {
    var k := if idx < 0 then 0 else if idx < |entries| then idx else |entries|;
    entries[..k] + [value] + entries[k..]
  }

  /** The entries after `remove(idx)`. */
  function Removed(entries: seq<string>, idx: int): (r: seq<string>)
    ensures Present(entries, idx) ==>
      |r| == |entries| - 1 && r[..idx] == entries[..idx] && r[idx..] == entries[idx + 1..]
    ensures !Present(entries, idx) ==> r == entries
  {
    if Present(entries, idx) then entries[..idx] + entries[idx + 1..] else entries
  }

  /** The entries after `set(idx, value)`. */
  function Assigned(entries: seq<string>, idx: int, value: string): (r: seq<string>)
    ensures |r| == |entries|
    ensures forall j :: 0 <= j < |entries| && j != idx ==> r[j] == entries[j]
    ensures Present(entries, idx) ==> r[idx] == value
    ensures !Present(entries, idx) ==> r == entries
  {
    if Present(entries, idx) then entries[idx := value] else entries
  }

  /** The entries after `parse(template, splitter)`: a blank template leaves them as they are. */
  function Parsed(entries: seq<string>, template: string, splitter: string): seq<string> {
    if IsBlank(template) then entries else Split(template, splitter)
  }

  /** Removing a non-empty entry right where `add` put it gives back the entries before the `add`. */
  lemma RemoveUndoesAdd(entries: seq<string>, idx: int, value: string)
    requires value != ""
    ensures var k := if idx < 0 then 0 else if idx < |entries| then idx else |entries|;
            Removed(Inserted(entries, idx, value), k) == entries
  {
    var k := if idx < 0 then 0 else if idx < |entries| then idx else |entries|;
    var r := Inserted(entries, idx, value);
    assert r == entries[..k] + [value] + entries[k..];
    assert r[..k] + r[k + 1..] == entries;
  }

  /**
   * The pieces that splitting a built template yields: each entry keeps the
   * spaces `build` put on its sides of the splitter.
   */
  function Framed(entries: seq<string>, lead: string): (r: seq<string>)
    requires |entries| >= 1
    ensures |r| == |entries|
    ensures r[0] == lead + entries[0] + (if |entries| > 1 then " " else "")
  {
    if |entries| == 1 then [lead + entries[0]]
    else [lead + entries[0] + " "] + Framed(entries[1..], " ")
  }

  /**
   * Splitting `lead + build()` on a splitter that holds no space and occurs in
   * no entry yields exactly the framed entries.
   */
  lemma {:induction false} SplitBuilt(entries: seq<string>, splitter: string, lead: string)
    requires |entries| >= 1
    requires splitter != [] && ' ' !in splitter
    requires forall k :: 0 <= k < |entries| ==> !Contains(entries[k], splitter)
    requires lead == "" || lead == " "
    ensures Split(lead + Join(entries, Separator(splitter)), splitter) == Framed(entries, lead)
    decreases |entries|
  {
    if |entries| == 1 {
      SplitBuiltSingle(entries, splitter, lead);
    } else {
      SplitBuilt(entries[1..], splitter, " ");
      SplitBuiltStep(entries, splitter, lead);
    }
  }

  /** The base case of `SplitBuilt`: a single entry is one piece. */
  lemma SplitBuiltSingle(entries: seq<string>, splitter: string, lead: string)
    requires |entries| == 1
    requires splitter != [] && ' ' !in splitter
    requires !Contains(entries[0], splitter)
    requires lead == "" || lead == " "
    ensures Split(lead + Join(entries, Separator(splitter)), splitter) == Framed(entries, lead)
  {
    var head := lead + entries[0];
    assert lead + Join(entries, Separator(splitter)) == head;
    NoMatchInFramedEntry(head, [], splitter, lead, entries[0]);
    SplitUnmatchedHead(head, [], splitter);
    assert head + [] == head;
  }

  /** The inductive step of `SplitBuilt`: the first entry is one piece, and the rest split as before. */
  lemma SplitBuiltStep(entries: seq<string>, splitter: string, lead: string)
    requires |entries| >= 2
    requires splitter != [] && ' ' !in splitter
    requires !Contains(entries[0], splitter)
    requires lead == "" || lead == " "
    requires Split(" " + Join(entries[1..], Separator(splitter)), splitter) == Framed(entries[1..], " ")
    ensures Split(lead + Join(entries, Separator(splitter)), splitter) == Framed(entries, lead)
  {
    var e := entries[0];
    var rest := Join(entries[1..], Separator(splitter));
    var head := lead + e + " ";
    var tail := splitter + (" " + rest);
    assert lead + Join(entries, Separator(splitter)) == head + tail by {
      assert Join(entries, Separator(splitter)) == e + Separator(splitter) + rest;
    }
    assert Split(tail, splitter) == [""] + Framed(entries[1..], " ") by {
      assert tail[..|splitter|] == splitter && tail[|splitter|..] == " " + rest;
    }
    NoMatchInFramedEntry(head, tail, splitter, lead, e);
    SplitUnmatchedHead(head, tail, splitter);
    assert head + "" == head;
  }

  /**
   * No occurrence of a space-free splitter starts inside `lead + e` (optionally
   * followed by one space) when `e` does not contain it.
   */
  lemma NoMatchInFramedEntry(head: string, tail: string, splitter: string, lead: string, e: string)
    requires splitter != [] && ' ' !in splitter
    requires !Contains(e, splitter)
    requires lead == "" || lead == " "
    requires head == lead + e + " " || (head == lead + e && tail == [])
    ensures forall p :: 0 <= p < |head| ==> !MatchAt(head + tail, splitter, p)
  {
    var s := head + tail;
    forall p | 0 <= p < |head| ensures !MatchAt(s, splitter, p) {
      var n := |splitter|;
      if p + n <= |s| {
        if p < |lead| {
          assert s[p..p + n][0] == s[p] == ' ';
        } else if p + n <= |lead| + |e| {
          assert s[|lead|..|lead| + |e|] == e;
          assert s[p..p + n] == s[|lead|..|lead| + |e|][p - |lead|..p - |lead| + n];
          assert !MatchAt(e, splitter, p - |lead|);
        } else {
          var q := |lead| + |e|;
          assert s[p..p + n][q - p] == s[q] == ' ';
        }
      }
    }
  }

  /**
   * Re-parsing `build()` with the same splitter gives back as many entries as
   * were built, provided the splitter is not blank, holds no space and occurs
   * in no entry. One entry or none comes back exactly; two or more come back
   * with the spaces around the separator attached.
   */
  lemma BuildParseRoundTrip(entries: seq<string>, splitter: string)
    requires splitter != [] && ' ' !in splitter && !IsBlank(splitter)
    requires forall k :: 0 <= k < |entries| ==> !Contains(entries[k], splitter)
    ensures var r := Parsed(entries, Join(entries, Separator(splitter)), splitter);
            |r| == |entries|
            && (|entries| <= 1 ==> r == entries)
            && (|entries| >= 2 ==> r == Framed(entries, ""))
  {
    var built := Join(entries, Separator(splitter));
    if |entries| == 1 {
      assert built == entries[0];
      NoMatchInFramedEntry(built, [], splitter, "", entries[0]);
      SplitUnmatchedHead(built, [], splitter);
      assert "" + entries[0] == entries[0] && built + [] == built;
    } else if |entries| >= 2 {
      SplitBuilt(entries, splitter, "");
      assert "" + built == built;
      BuiltNotBlank(entries, splitter);
    }
  }

  /** With two entries or more the built template shows the splitter, so it is not blank. */
  lemma BuiltNotBlank(entries: seq<string>, splitter: string)
    requires |entries| >= 2 && !IsBlank(splitter)
    ensures !IsBlank(Join(entries, Separator(splitter)))
  {
    var i :| 0 <= i < |splitter| && !IsWhitespace(splitter[i]);
    var rest := Join(entries[1..], Separator(splitter));
    var built := Join(entries, Separator(splitter));
    assert built == entries[0] + (Separator(splitter) + rest);
    assert (Separator(splitter) + rest)[1 + i] == splitter[i];
    assert built[|entries[0]| + 1 + i] == splitter[i];
  }

  /**
   * The `GridTemplate` class: the list of size tokens of one split pane and
   * the splitter token it is split on and joined with.
   */
  class GridTemplate {
    var splitter: string
    var parsedTemplate: seq<string>

    /** Seeded from `template` unless it is blank. */
    constructor (template: string := "", splitter: string := DEFAULT_SPLITTER)
      ensures this.splitter == splitter
      ensures parsedTemplate == Parsed([], template, splitter)
    {
      this.splitter := splitter;
      parsedTemplate := [];
      TrimEmptyIffBlank(template);
      if |Trim(template)| != 0 {
        parsedTemplate := Split(template, splitter);
      }
    }

    /** Inserts `value` at `idx`; a negative index prepends, one past the end appends. */
    method Add(idx: int, value: string := DEFAULT_SIZE)
      modifies this
      ensures parsedTemplate == Inserted(old(parsedTemplate), idx, value)
      ensures splitter == old(splitter)
    {
      if idx < 0 {
        parsedTemplate := [value] + parsedTemplate;
      } else {
        var start := if idx < |parsedTemplate| then idx else |parsedTemplate|;
        parsedTemplate := parsedTemplate[..start] + [value] + parsedTemplate[start..];
      }
    }

    /** Deletes the entry at `idx` when it is present and non-empty, and says whether it did. */
    method Remove(idx: int) returns (removed: bool)
      modifies this
      ensures removed <==> 0 <= idx < |old(parsedTemplate)| && old(parsedTemplate)[idx] != ""
      ensures parsedTemplate == Removed(old(parsedTemplate), idx)
      ensures splitter == old(splitter)
    {
      if Present(parsedTemplate, idx) {
        parsedTemplate := parsedTemplate[..idx] + parsedTemplate[idx + 1..];
        return true;
      }
      return false;
    }

    /** The entry at `idx`, or `None` (JavaScript's `undefined`) outside the list. */
    function Get(idx: int): (r: Option<string>)
      reads this
      ensures r.Some? <==> 0 <= idx < |parsedTemplate|
      ensures r.Some? ==> r.value == parsedTemplate[idx]
    {
      if 0 <= idx < |parsedTemplate| then Some(parsedTemplate[idx]) else None
    }

    /** Overwrites the entry at `idx` when it is present and non-empty, and says whether it did. */
    method Set(idx: int, value: string := DEFAULT_SIZE) returns (updated: bool)
      modifies this
      ensures updated <==> 0 <= idx < |old(parsedTemplate)| && old(parsedTemplate)[idx] != ""
      ensures parsedTemplate == Assigned(old(parsedTemplate), idx, value)
      ensures splitter == old(splitter)
    {
      if Present(parsedTemplate, idx) {
        parsedTemplate := parsedTemplate[idx := value];
        return true;
      }
      return false;
    }

    /** Replaces the entries by the pieces of `template`, unless `template` is blank. */
    method Parse(template: string, splitter: string := this.splitter)
      modifies this
      ensures parsedTemplate == Parsed(old(parsedTemplate), template, splitter)
      ensures this.splitter == old(this.splitter)
    {
      TrimEmptyIffBlank(template);
      if |Trim(template)| != 0 {
        parsedTemplate := Split(template, splitter);
      }
    }

    /** The entries joined by the splitter with a space on each side. */
    function Build(splitter: string := this.splitter): (r: string)
      reads this
      ensures r == Join(parsedTemplate, Separator(splitter))
      ensures |parsedTemplate| == 0 ==> r == ""
      ensures |parsedTemplate| == 1 ==> r == parsedTemplate[0]
    {
      Join(parsedTemplate, Separator(splitter))
    }
  }
}
