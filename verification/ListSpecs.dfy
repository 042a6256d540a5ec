/** Saved-list identifiers from user input, from maps/savedplaces/savedplaces.go. */
module ListSpecs {
  import opened Options

  datatype ListSpec = ListSpec(id: string, name: string)

  datatype ParseError = BadLine(number: nat) | NothingFound

  /** `net/url`: the nonempty path of a value that parses as a URL. */
  type UrlPath = string -> Option<string>

  // ---------- characters, trimming, splitting ----------

  /** `unicode.IsSpace`. */
  predicate IsSpace(c: char) {
    || '\t' <= c <= '\r' || c == ' ' || c == '\U{85}' || c == '\U{A0}' || c == '\U{1680}'
    || '\U{2000}' <= c <= '\U{200a}' || c == '\U{2028}' || c == '\U{2029}' || c == '\U{202f}'
    || c == '\U{205f}' || c == '\U{3000}'
  }

  predicate IsIdChar(c: char) {
    'A' <= c <= 'Z' || 'a' <= c <= 'z' || '0' <= c <= '9' || c == '_' || c == '-'
  }

  predicate IsId(s: string) {
    |s| > 0 && forall i :: 0 <= i < |s| ==> IsIdChar(s[i])
  }

  function TrimLeft(s: string): string {
    if |s| > 0 && IsSpace(s[0]) then TrimLeft(s[1..]) else s
  }

  function TrimRight(s: string): string {
    if |s| > 0 && IsSpace(s[|s| - 1]) then TrimRight(s[..|s| - 1]) else s
  }

  function TrimSpace(s: string): string {
    TrimRight(TrimLeft(s))
  }

  /** Position of the first c in s, |s| if there is none. */
  function IndexOf(s: string, c: char): (n: nat)
    ensures n <= |s| && (n < |s| ==> s[n] == c)
  {
    if |s| == 0 || s[0] == c then 0 else 1 + IndexOf(s[1..], c)
  }

  /** `strings.Split(s, "\n")`. */
  function Lines(s: string): (r: seq<string>)
    ensures |r| > 0
    decreases |s|
  {
    var n := IndexOf(s, '\n');
    if n == |s| then [s] else [s[..n]] + Lines(s[n + 1..])
  }

  // ---------- identifiers ----------

  const LIST_PATH := "/maps/placelists/list/"
  const LIST_DATA := "!2s"

  /** The longest run of identifier characters at the start of s. */
  function IdRun(s: string): (r: string)
    ensures r <= s && forall i :: 0 <= i < |r| ==> IsIdChar(r[i])
  {
    if |s| == 0 || !IsIdChar(s[0]) then "" else [s[0]] + IdRun(s[1..])
  }

  /** s starts with the marker, a run of identifier characters and, when closed, '!'. */
  predicate HasRun(s: string, marker: string, closed: bool) {
    && marker <= s && |IdRun(s[|marker|..])| > 0
    && (closed ==> |marker| + |IdRun(s[|marker|..])| < |s| && s[|marker| + |IdRun(s[|marker|..])|] == '!')
  }

  /** Leftmost match of `marker([A-Za-z0-9_-]+)`, followed by '!' when closed. */
  function FindId(s: string, marker: string, closed: bool): (r: Option<string>)
    ensures r.Some? ==> IsId(r.value)
  {
    if |s| == 0 then None
    else if HasRun(s, marker, closed) then Some(IdRun(s[|marker|..]))
    else FindId(s[1..], marker, closed)
  }

  function ExtractListID(urlPath: UrlPath, input: string): (r: Option<string>)
    ensures r.Some? ==> IsId(r.value)
  {
    var value := TrimSpace(input);
    var inPath := FindId(value, LIST_PATH, false);
    if inPath.Some? then inPath
    else
      var inData := FindId(value, LIST_DATA, true);
      if inData.Some? then inData
      else
        var path := urlPath(value);
        var inUrl := if path.Some? then FindId(path.value, LIST_PATH, false) else None;
        if inUrl.Some? then inUrl
        else if IsId(value) then Some(value)
        else None
  }

  // ---------- what the patterns mean ----------

  /** `marker([A-Za-z0-9_-]+)`, with '!' after it when closed, matches at position i with
      this identifier. */
  predicate Matches(s: string, marker: string, closed: bool, i: nat, id: string) {
    i <= |s| && MatchesHere(s[i..], marker, closed, id)
  }

  predicate MatchesHere(t: string, marker: string, closed: bool, id: string) {
    IsId(id) && marker + id <= t && (closed ==> |marker + id| < |t| && t[|marker + id|] == '!')
  }

  ghost predicate NoMatch(s: string, marker: string, closed: bool) {
    forall i: nat, id :: !Matches(s, marker, closed, i, id)
  }

  /** The match a regular-expression search reports: leftmost, then as long as possible. */
  ghost predicate Reported(s: string, marker: string, closed: bool, i: nat, id: string) {
    && Matches(s, marker, closed, i, id)
    && (forall j: nat, other :: j < i ==> !Matches(s, marker, closed, j, other))
    && (forall other :: Matches(s, marker, closed, i, other) ==> |other| <= |id|)
  }

  lemma {:induction false} IdRunMaximal(s: string, id: string)
    requires id <= s && (forall i :: 0 <= i < |id| ==> IsIdChar(id[i]))
    ensures id <= IdRun(s)
    ensures |id| < |IdRun(s)| ==> IsIdChar(s[|id|])
  {
    if |id| > 0 {
      assert id == [s[0]] + id[1..] && id[1..] <= s[1..];
      IdRunMaximal(s[1..], id[1..]);
    }
  }

  /** At one position the only reportable match is the whole run of identifier characters. */
  lemma HereIsRun(t: string, marker: string, closed: bool, id: string)
    requires MatchesHere(t, marker, closed, id)
    ensures marker <= t && id <= IdRun(t[|marker|..])
    ensures closed ==> id == IdRun(t[|marker|..])
    ensures MatchesHere(t, marker, closed, IdRun(t[|marker|..]))
  {
    var u := t[|marker|..];
    assert (marker + id)[..|marker|] == marker && t == marker + u && id <= u;
    IdRunMaximal(u, id);
    assert |marker + id| < |t| ==> t[|marker + id|] == u[|id|];
  }

  lemma RunMatches(t: string, marker: string, closed: bool)
    requires HasRun(t, marker, closed)
    ensures MatchesHere(t, marker, closed, IdRun(t[|marker|..]))
  {
    assert t == marker + t[|marker|..];
  }

  lemma ShiftMatch(s: string, marker: string, closed: bool, i: nat, id: string)
    requires |s| > 0
    ensures Matches(s, marker, closed, i + 1, id) <==> Matches(s[1..], marker, closed, i, id)
  {
    assert i < |s| ==> s[i + 1..] == s[1..][i..];
  }

  /** Some match is reported with this identifier. */
  ghost predicate Found(s: string, marker: string, closed: bool, id: string) {
    exists i: nat :: Reported(s, marker, closed, i, id)
  }

  lemma MatchAtStart(s: string, marker: string, closed: bool, id: string)
    ensures HasRun(s, marker, closed) ==> Reported(s, marker, closed, 0, IdRun(s[|marker|..]))
    ensures !HasRun(s, marker, closed) ==> !Matches(s, marker, closed, 0, id)
  {
    assert s[0..] == s;
    if HasRun(s, marker, closed) {
      RunMatches(s, marker, closed);
    }
    forall other | MatchesHere(s, marker, closed, other)
      ensures HasRun(s, marker, closed) && |other| <= |IdRun(s[|marker|..])|
    {
      HereIsRun(s, marker, closed, other);
    }
  }

  /** Without a match at the start, matches are those of the rest. */
  lemma LaterMatch(s: string, marker: string, closed: bool, i: nat, id: string)
    requires |s| > 0 && !HasRun(s, marker, closed) && Reported(s[1..], marker, closed, i, id)
    ensures Reported(s, marker, closed, i + 1, id)
  {
    ShiftMatch(s, marker, closed, i, id);
    forall j: nat, other | Matches(s, marker, closed, j, other)
      ensures j > i && (j == i + 1 ==> |other| <= |id|)
    {
      MatchAtStart(s, marker, closed, other);
      ShiftMatch(s, marker, closed, j - 1, other);
    }
  }

  lemma NoLaterMatch(s: string, marker: string, closed: bool)
    requires |s| > 0 && !HasRun(s, marker, closed) && NoMatch(s[1..], marker, closed)
    ensures NoMatch(s, marker, closed)
  {
    forall j: nat, other ensures !Matches(s, marker, closed, j, other) {
      MatchAtStart(s, marker, closed, other);
      if j > 0 {
        ShiftMatch(s, marker, closed, j - 1, other);
      }
    }
  }

  /** `FindId` reports the leftmost, longest match, and nothing only where none exists. */
  lemma {:induction false} FindIdExact(s: string, marker: string, closed: bool)
    ensures match FindId(s, marker, closed)
            case None => NoMatch(s, marker, closed)
            case Some(id) => Found(s, marker, closed, id)
  {
    if |s| > 0 && !HasRun(s, marker, closed) {
      FindIdExact(s[1..], marker, closed);
      if FindId(s[1..], marker, closed).Some? {
        var id := FindId(s[1..], marker, closed).value;
        var i: nat :| Reported(s[1..], marker, closed, i, id);
        LaterMatch(s, marker, closed, i, id);
      } else {
        NoLaterMatch(s, marker, closed);
      }
    } else if |s| > 0 {
      MatchAtStart(s, marker, closed, "");
    }
  }

  lemma ReportedUnique(s: string, marker: string, closed: bool, i: nat, id: string, j: nat, other: string)
    requires Reported(s, marker, closed, i, id) && Reported(s, marker, closed, j, other)
    ensures i == j && id == other
  {
    assert Matches(s, marker, closed, i, id) && Matches(s, marker, closed, j, other);
    assert marker + id <= s[i..] && marker + other <= s[i..];
    SameLength(marker, id, other, s[i..]);
  }

  lemma SameLength(marker: string, id: string, other: string, t: string)
    requires marker + id <= t && marker + other <= t && |id| == |other|
    ensures id == other
  {
    assert id == (marker + id)[|marker|..] == t[|marker|..|marker| + |id|];
    assert other == (marker + other)[|marker|..] == t[|marker|..|marker| + |other|];
  }

  /** There is at most one reported match, so the pattern determines what `FindId` gives. */
  lemma FoundIff(s: string, marker: string, closed: bool, id: string)
    ensures FindId(s, marker, closed) == Some(id) <==> Found(s, marker, closed, id)
    ensures FindId(s, marker, closed) == None <==> NoMatch(s, marker, closed)
  {
    FindIdExact(s, marker, closed);
    if Found(s, marker, closed, id) {
      var i: nat :| Reported(s, marker, closed, i, id);
      assert Matches(s, marker, closed, i, id) && !NoMatch(s, marker, closed);
      var other := FindId(s, marker, closed).value;
      var j: nat :| Reported(s, marker, closed, j, other);
      ReportedUnique(s, marker, closed, i, id, j, other);
    }
  }

  /** Which values are accepted and which pattern wins: the list path in the text, then the
      data parameter, then the list path in the URL's path, then a bare identifier. */
  lemma ExtractExact(urlPath: UrlPath, input: string, id: string)
    ensures var v := TrimSpace(input);
      var path := urlPath(v);
      ExtractListID(urlPath, input) == Some(id) <==>
        || Found(v, "/maps/placelists/list/", false, id)
        || (NoMatch(v, "/maps/placelists/list/", false)
            && (|| Found(v, "!2s", true, id)
                || (NoMatch(v, "!2s", true)
                    && (|| (path.Some? && Found(path.value, "/maps/placelists/list/", false, id))
                        || ((path.Some? ==> NoMatch(path.value, "/maps/placelists/list/", false)) && v == id && IsId(id))))))
  {
    var v := TrimSpace(input);
    FoundIff(v, LIST_PATH, false, id);
    FoundIff(v, LIST_DATA, true, id);
    if urlPath(v).Some? {
      FoundIff(urlPath(v).value, LIST_PATH, false, id);
    }
  }

  /** A bare identifier is accepted as itself: neither pattern can match inside it. */
  lemma BareIdAccepted(urlPath: UrlPath, id: string)
    requires IsId(id) && urlPath(id) in {None, Some(id)}
    ensures ExtractListID(urlPath, id) == Some(id)
  {
    assert !IsSpace(id[0]) && !IsSpace(id[|id| - 1]);
    assert TrimSpace(id) == id;
    NoMarkInId(id, LIST_PATH, false);
    NoMarkInId(id, LIST_DATA, true);
    ExtractExact(urlPath, id, id);
  }

  lemma NoMarkInId(id: string, marker: string, closed: bool)
    requires IsId(id) && |marker| > 0 && !IsIdChar(marker[0])
    ensures NoMatch(id, marker, closed)
  {
    forall i: nat, other ensures !Matches(id, marker, closed, i, other) {
      if i < |id| {
        assert IsIdChar(id[i]) && id[i..][0] == id[i];
        assert (marker + other)[0] == marker[0];
      }
    }
  }

  /** "Name<TAB>value", or just a value. */
  function ParseListInputLine(line: string): (string, string) {
    var n := IndexOf(line, '\t');
    if n < |line| then (TrimSpace(line[..n]), TrimSpace(line[n + 1..])) else ("", line)
  }

  /** What a line contributes. */
  datatype Item = Skip | Entry(id: string, name: string) | Bad

  function ParseLine(urlPath: UrlPath, raw: string): (r: Item)
    ensures r.Entry? ==> IsId(r.id)
  {
    var line := TrimSpace(raw);
    if line == "" || "#" <= line then Skip
    else
      var (name, value) := ParseListInputLine(line);
      match ExtractListID(urlPath, value)
      case None => Bad
      case Some(id) => Entry(id, name)
  }

  // ---------- lines, names and values ----------

  predicate Blank(s: string) {
    forall i :: 0 <= i < |s| ==> IsSpace(s[i])
  }

  /** No space at either end. */
  predicate Tight(s: string) {
    s == "" || (!IsSpace(s[0]) && !IsSpace(s[|s| - 1]))
  }

  /** Trimming leaves the text between the outer spaces. */
  lemma TrimExact(l: string, t: string, r: string)
    requires Blank(l) && Tight(t) && Blank(r)
    ensures TrimSpace(l + t + r) == t
  {
    assert l + t + r == l + (t + r);
    if t == "" {
      assert l + t + r == l + r && Blank(l + r);
      TrimLeftBlank(l + r, "");
      assert (l + r) + "" == l + r;
    } else {
      TrimLeftBlank(l, t + r);
      assert (t + r)[0] == t[0];
      TrimRightBlank(t, r);
    }
  }

  lemma {:induction false} TrimLeftBlank(l: string, t: string)
    requires Blank(l) && (t == "" || !IsSpace(t[0]))
    ensures TrimLeft(l + t) == t
  {
    if l == "" {
      assert l + t == t;
    } else {
      assert (l + t)[1..] == l[1..] + t && (l + t)[0] == l[0];
      TrimLeftBlank(l[1..], t);
    }
  }

  lemma {:induction false} TrimRightBlank(t: string, r: string)
    requires Blank(r) && (t == "" || !IsSpace(t[|t| - 1]))
    ensures TrimRight(t + r) == t
    decreases |r|
  {
    if r == "" {
      assert t + r == t;
    } else {
      assert (t + r)[..|t + r| - 1] == t + r[..|r| - 1] && (t + r)[|t + r| - 1] == r[|r| - 1];
      TrimRightBlank(t, r[..|r| - 1]);
    }
  }

  lemma {:induction false} IndexOfFirst(a: string, c: char, b: string)
    requires c !in a
    ensures IndexOf(a + [c] + b, c) == |a| && IndexOf(a, c) == |a|
  {
    if a == "" {
      assert (a + [c] + b)[0] == c;
    } else {
      assert (a + [c] + b)[1..] == a[1..] + [c] + b && (a + [c] + b)[0] == a[0];
      IndexOfFirst(a[1..], c, b);
    }
  }

  /** The name stands before the first tab and the value after it; without a tab there is
      only a value. */
  lemma NameThenValue(a: string, b: string)
    requires '\t' !in a
    ensures ParseListInputLine(a + "\t" + b) == (TrimSpace(a), TrimSpace(b))
    ensures ParseListInputLine(a) == ("", a)
  {
    IndexOfFirst(a, '\t', b);
    var line := a + "\t" + b;
    assert line[..|a|] == a && line[|a| + 1..] == b;
  }

  lemma TightLine(name: string, b: string, value: string)
    requires name != "" && Tight(name) && value != "" && Tight(value)
    ensures var line := name + "\t" + (b + value);
      line != "" && Tight(line) && line[0] == name[0]
  {
    var line := name + "\t" + (b + value);
    assert line[0] == name[0] && line[|line| - 1] == value[|value| - 1];
  }

  lemma NamedParts(name: string, b: string, value: string)
    requires Tight(name) && '\t' !in name && Blank(b) && Tight(value)
    ensures ParseListInputLine(name + "\t" + (b + value)) == (name, value)
  {
    NameThenValue(name, b + value);
    TrimExact("", name, "");
    assert "" + name + "" == name;
    TrimExact(b, value, "");
    assert b + value + "" == b + value;
  }

  /** What a line of name, tab and value contributes, whatever spaces surround the three. */
  lemma NamedLine(urlPath: UrlPath, l: string, name: string, b: string, value: string, r: string)
    requires Blank(l) && Blank(b) && Blank(r)
    requires name != "" && Tight(name) && name[0] != '#' && '\t' !in name && value != "" && Tight(value)
    ensures ParseLine(urlPath, l + (name + "\t" + (b + value)) + r) ==
              match ExtractListID(urlPath, value) case None => Bad case Some(id) => Entry(id, name)
  {
    var line := name + "\t" + (b + value);
    TightLine(name, b, value);
    TrimExact(l, line, r);
    NamedParts(name, b, value);
    NotComment(line);
  }

  lemma NotComment(line: string)
    requires line != "" && line[0] != '#'
    ensures !("#" <= line)
  {
  }

  /** A line without a tab contributes its value, unnamed; comments and blank lines nothing. */
  lemma BareLine(urlPath: UrlPath, l: string, value: string, r: string)
    requires Blank(l) && Blank(r) && Tight(value) && '\t' !in value
    ensures ParseLine(urlPath, l + value + r) ==
              if value == "" || value[0] == '#' then Skip
              else match ExtractListID(urlPath, value) case None => Bad case Some(id) => Entry(id, "")
  {
    TrimExact(l, value, r);
    NameThenValue(value, "");
    if value != "" && value[0] != '#' {
      NotComment(value);
    } else if value != "" {
      assert "#" <= value;
    }
  }

  /** Lines put together with newlines. */
  function Joined(lines: seq<string>): string
    requires |lines| > 0
  {
    if |lines| == 1 then lines[0] else lines[0] + "\n" + Joined(lines[1..])
  }

  /** Splitting undoes joining. */
  lemma {:induction false} LinesOfJoined(lines: seq<string>)
    requires |lines| > 0 && forall i :: 0 <= i < |lines| ==> '\n' !in lines[i]
    ensures Lines(Joined(lines)) == lines
  {
    if |lines| == 1 {
      FirstLineOf(lines[0], "");
      assert lines == [lines[0]];
    } else {
      LinesOfJoined(lines[1..]);
      FirstLineOf(lines[0], Joined(lines[1..]));
      assert lines == [lines[0]] + lines[1..];
    }
  }

  lemma {:induction false} FirstLineOf(a: string, rest: string)
    requires '\n' !in a
    ensures Lines(a + "\n" + rest) == [a] + Lines(rest) && Lines(a) == [a]
  {
    IndexOfFirst(a, '\n', rest);
    var s := a + "\n" + rest;
    assert s[..|a|] == a && s[|a| + 1..] == rest;
  }

  // ---------- grouping by first occurrence ----------

  /** Items of the first n lines. */
  function Items(urlPath: UrlPath, lines: seq<string>): (r: seq<Item>)
    ensures |r| == |lines|
    ensures forall i :: 0 <= i < |lines| ==> r[i] == ParseLine(urlPath, lines[i])
  {
    seq(|lines|, i requires 0 <= i < |lines| => ParseLine(urlPath, lines[i]))
  }

  predicate AllGood(items: seq<Item>) {
    forall i :: 0 <= i < |items| ==> !items[i].Bad?
  }

  predicate Occurs(items: seq<Item>, id: string) {
    exists i :: 0 <= i < |items| && items[i].Entry? && items[i].id == id
  }

  /** Position of the first line with this id. */
  function FirstLine(items: seq<Item>, id: string): (n: nat)
    ensures n <= |items|
    ensures n < |items| ==> items[n].Entry? && items[n].id == id
    ensures forall i :: 0 <= i < n ==> !(items[i].Entry? && items[i].id == id)
  {
    if |items| == 0 || (items[0].Entry? && items[0].id == id) then 0
    else
      var n := FirstLine(items[1..], id);
      assert forall i :: 1 <= i < n + 1 ==> items[i] == items[1..][i - 1];
      n + 1
  }

  /** The first nonempty name given to this id; "" if no line names it. */
  function NameOf(items: seq<Item>, id: string): string {
    if |items| == 0 then ""
    else if items[0].Entry? && items[0].id == id && items[0].name != "" then items[0].name
    else NameOf(items[1..], id)
  }

  predicate Names(item: Item, id: string) {
    item.Entry? && item.id == id && item.name != ""
  }

  /** The name given is that of the first line that names the id, and empty only when none
      does. */
  lemma {:induction false} NameOfExact(items: seq<Item>, id: string)
    ensures NameOf(items, id) == "" <==> forall i :: 0 <= i < |items| ==> !Names(items[i], id)
    ensures NameOf(items, id) != "" ==>
              exists i :: 0 <= i < |items| && Names(items[i], id) && items[i].name == NameOf(items, id)
                          && forall j :: 0 <= j < i ==> !Names(items[j], id)
  {
    if |items| > 0 && !Names(items[0], id) {
      NameOfExact(items[1..], id);
      assert forall i :: 1 <= i < |items| ==> items[i] == items[1..][i - 1];
      if NameOf(items, id) != "" {
        var i :| 0 <= i < |items[1..]| && Names(items[1..][i], id) && items[1..][i].name == NameOf(items, id)
                 && forall j :: 0 <= j < i ==> !Names(items[1..][j], id);
        assert items[i + 1] == items[1..][i];
        assert forall j :: 0 <= j < i + 1 ==> !Names(items[j], id);
      }
    }
  }

  /** An id that occurs has a spec. */
  ghost predicate Covered(items: seq<Item>, specs: seq<ListSpec>, id: string) {
    Occurs(items, id) ==> exists k :: 0 <= k < |specs| && specs[k].id == id
  }

  predicate InOrder(items: seq<Item>, specs: seq<ListSpec>, j: nat, k: nat) {
    j < k < |specs| ==> FirstLine(items, specs[j].id) < FirstLine(items, specs[k].id)
  }

  predicate Describes(items: seq<Item>, spec: ListSpec) {
    Occurs(items, spec.id) && spec.name == NameOf(items, spec.id)
  }

  /** specs groups items by first occurrence: exactly the ids that occur, once each, in the
      order of their first lines, each with its first nonempty name. */
  ghost predicate Groups(items: seq<Item>, specs: seq<ListSpec>) {
    && (forall k :: 0 <= k < |specs| ==> Describes(items, specs[k]))
    && (forall id :: Covered(items, specs, id))
    && (forall j, k :: InOrder(items, specs, j, k))
  }

  lemma OccursIff(items: seq<Item>, id: string)
    ensures Occurs(items, id) <==> FirstLine(items, id) < |items|
  {
  }

  lemma DistinctIds(items: seq<Item>, specs: seq<ListSpec>, j: nat, k: nat)
    requires Groups(items, specs) && j < |specs| && k < |specs| && j != k
    ensures specs[j].id != specs[k].id
  {
    assert InOrder(items, specs, j, k) && InOrder(items, specs, k, j);
  }

  /** With equal front parts, the next id of a does not come before the next id of b. */
  lemma NotSkipped(items: seq<Item>, a: seq<ListSpec>, b: seq<ListSpec>, n: nat)
    requires Groups(items, a) && Groups(items, b) && n < |a| && n < |b|
    requires forall i :: 0 <= i < n ==> a[i] == b[i]
    ensures FirstLine(items, b[n].id) <= FirstLine(items, a[n].id)
  {
    forall j | 0 <= j < n ensures b[j].id != a[n].id { DistinctIds(items, a, j, n); }
    assert Describes(items, a[n]) && Covered(items, b, a[n].id);
    var k :| 0 <= k < |b| && b[k].id == a[n].id;
    assert InOrder(items, b, n, k);
  }

  lemma {:induction false} GroupsAgree(items: seq<Item>, a: seq<ListSpec>, b: seq<ListSpec>, n: nat)
    requires Groups(items, a) && Groups(items, b) && n <= |a| && n <= |b|
    ensures forall i :: 0 <= i < n ==> a[i] == b[i]
    decreases n
  {
    if n > 0 {
      GroupsAgree(items, a, b, n - 1);
      NextAgrees(items, a, b, n - 1);
    }
  }

  lemma NextAgrees(items: seq<Item>, a: seq<ListSpec>, b: seq<ListSpec>, n: nat)
    requires Groups(items, a) && Groups(items, b) && n < |a| && n < |b|
    requires forall i :: 0 <= i < n ==> a[i] == b[i]
    ensures a[n] == b[n]
  {
    NotSkipped(items, a, b, n);
    NotSkipped(items, b, a, n);
    assert Describes(items, a[n]) && Describes(items, b[n]);
    SameFirst(items, a[n].id, b[n].id);
  }

  lemma SameFirst(items: seq<Item>, x: string, y: string)
    requires Occurs(items, x) && FirstLine(items, x) == FirstLine(items, y)
    ensures x == y
  {
    OccursIff(items, x);
  }

  lemma NoLeftover(items: seq<Item>, a: seq<ListSpec>, b: seq<ListSpec>)
    requires Groups(items, a) && Groups(items, b) && a <= b
    ensures |a| == |b|
  {
    if |a| < |b| {
      assert Describes(items, b[|a|]) && Covered(items, a, b[|a|].id);
      forall j | 0 <= j < |a| ensures a[j].id != b[|a|].id { DistinctIds(items, b, j, |a|); }
    }
  }

  /** Grouping determines its result: two groupings of the same lines are equal. */
  lemma GroupsUnique(items: seq<Item>, a: seq<ListSpec>, b: seq<ListSpec>)
    requires Groups(items, a) && Groups(items, b)
    ensures a == b
  {
    GroupsAgree(items, a, b, if |a| < |b| then |a| else |b|);
    if |a| <= |b| {
      NoLeftover(items, a, b);
    } else {
      NoLeftover(items, b, a);
    }
  }

  // ---------- one more line ----------

  lemma {:induction false} FirstLineMore(items: seq<Item>, item: Item, id: string)
    ensures FirstLine(items, id) < |items| ==> FirstLine(items + [item], id) == FirstLine(items, id)
    ensures FirstLine(items, id) == |items| ==>
      FirstLine(items + [item], id) == if item.Entry? && item.id == id then |items| else |items| + 1
  {
    var more := items + [item];
    assert forall i :: 0 <= i < |items| ==> more[i] == items[i];
    assert more[|items|] == item;
  }

  lemma {:induction false} NameOfMore(items: seq<Item>, item: Item, id: string)
    ensures NameOf(items + [item], id) ==
      if NameOf(items, id) != "" then NameOf(items, id)
      else if item.Entry? && item.id == id then item.name else ""
  {
    if |items| == 0 {
      assert ([] + [item])[1..] == [];
    } else {
      assert (items + [item])[1..] == items[1..] + [item];
      NameOfMore(items[1..], item, id);
    }
  }

  lemma OccursMore(items: seq<Item>, item: Item, id: string)
    ensures Occurs(items + [item], id) <==> Occurs(items, id) || (item.Entry? && item.id == id)
  {
    FirstLineMore(items, item, id);
    OccursIff(items, id);
    OccursIff(items + [item], id);
  }

  lemma GroupsSkip(items: seq<Item>, specs: seq<ListSpec>)
    requires Groups(items, specs)
    ensures Groups(items + [Skip], specs)
  {
    var more := items + [Skip];
    forall k | 0 <= k < |specs|
      ensures FirstLine(more, specs[k].id) == FirstLine(items, specs[k].id) && Describes(more, specs[k])
    {
      assert Describes(items, specs[k]);
      OccursIff(items, specs[k].id);
      OccursMore(items, Skip, specs[k].id);
      FirstLineMore(items, Skip, specs[k].id);
      NameOfMore(items, Skip, specs[k].id);
    }
    forall id ensures Covered(more, specs, id) {
      assert Covered(items, specs, id);
      OccursMore(items, Skip, id);
    }
    forall j, k ensures InOrder(more, specs, j, k) { assert InOrder(items, specs, j, k); }
  }

  lemma GroupsNew(items: seq<Item>, specs: seq<ListSpec>, id: string, name: string)
    requires Groups(items, specs) && !Occurs(items, id)
    ensures Groups(items + [Entry(id, name)], specs + [ListSpec(id, name)])
  {
    var item := Entry(id, name);
    var more, out := items + [item], specs + [ListSpec(id, name)];
    forall k | 0 <= k < |out|
      ensures Describes(more, out[k])
      ensures FirstLine(more, out[k].id) == if k < |specs| then FirstLine(items, specs[k].id) else |items|
      ensures k < |specs| ==> FirstLine(items, specs[k].id) < |items|
    {
      if k < |specs| { assert Describes(items, specs[k]); }
      OccursIff(items, out[k].id);
      OccursMore(items, item, out[k].id);
      FirstLineMore(items, item, out[k].id);
      NameOfMore(items, item, out[k].id);
      if k == |specs| { NameOfAbsent(items, id); }
    }
    forall x ensures Covered(more, out, x) {
      assert Covered(items, specs, x);
      OccursMore(items, item, x);
      if Occurs(items, x) {
        var k :| 0 <= k < |specs| && specs[k].id == x;
        assert out[k].id == x;
      } else {
        assert out[|specs|].id == id;
      }
    }
    forall j, k ensures InOrder(more, out, j, k) { assert InOrder(items, specs, j, k); }
  }

  lemma {:induction false} NameOfAbsent(items: seq<Item>, id: string)
    requires !Occurs(items, id)
    ensures NameOf(items, id) == ""
  {
    if |items| > 0 {
      assert forall i :: 0 <= i < |items[1..]| ==> items[1..][i] == items[i + 1];
      NameOfAbsent(items[1..], id);
    }
  }

  /** A repeated id fills in a missing name and changes nothing else. */
  lemma GroupsAgain(items: seq<Item>, specs: seq<ListSpec>, index: nat, name: string)
    requires Groups(items, specs) && index < |specs|
    ensures var s := specs[index];
      Groups(items + [Entry(s.id, name)],
             if s.name == "" && name != "" then specs[index := s.(name := name)] else specs)
  {
    var s := specs[index];
    var item := Entry(s.id, name);
    var more := items + [item];
    var out := if s.name == "" && name != "" then specs[index := s.(name := name)] else specs;
    forall k | 0 <= k < |out|
      ensures out[k].id == specs[k].id && Describes(more, out[k])
      ensures FirstLine(more, out[k].id) == FirstLine(items, specs[k].id)
    {
      assert Describes(items, specs[k]);
      OccursIff(items, specs[k].id);
      OccursMore(items, item, specs[k].id);
      FirstLineMore(items, item, specs[k].id);
      NameOfMore(items, item, specs[k].id);
      if k != index {
        DistinctIds(items, specs, k, index);
      }
    }
    forall x ensures Covered(more, out, x) {
      assert Covered(items, specs, x) && Describes(items, specs[index]);
      OccursMore(items, item, x);
      if Occurs(items, x) {
        var k :| 0 <= k < |specs| && specs[k].id == x;
        assert out[k].id == x;
      }
    }
    forall j, k ensures InOrder(more, out, j, k) { assert InOrder(items, specs, j, k); }
  }

  // ---------- the parser ----------

  /** `seen` maps every id exactly to its index in specs. */
  ghost predicate Indexed(seen: map<string, nat>, specs: seq<ListSpec>) {
    && (forall id :: id in seen ==> seen[id] < |specs| && specs[seen[id]].id == id)
    && (forall k :: 0 <= k < |specs| ==> specs[k].id in seen && seen[specs[k].id] == k)
  }

  /** The index map answers whether an id occurred on an earlier line. */
  lemma SeenIffOccurs(items: seq<Item>, seen: map<string, nat>, specs: seq<ListSpec>, id: string)
    requires Groups(items, specs) && Indexed(seen, specs)
    ensures id in seen <==> Occurs(items, id)
  {
    assert Covered(items, specs, id);
    if Occurs(items, id) {
      var k :| 0 <= k < |specs| && specs[k].id == id;
      assert specs[k].id in seen;
    }
    if id in seen {
      assert Describes(items, specs[seen[id]]);
    }
  }

  lemma IndexedNew(seen: map<string, nat>, specs: seq<ListSpec>, id: string, name: string)
    requires Indexed(seen, specs) && id !in seen
    ensures Indexed(seen[id := |specs|], specs + [ListSpec(id, name)])
  {
  }

  predicate AllIds(specs: seq<ListSpec>) {
    forall k :: 0 <= k < |specs| ==> IsId(specs[k].id)
  }

  /** Register one identified line: append it, or fill in the name of the id's spec. */
  method AddLine(seen: map<string, nat>, specs: seq<ListSpec>, id: string, name: string, ghost front: seq<Item>)
    returns (seen': map<string, nat>, specs': seq<ListSpec>)
    requires Groups(front, specs) && Indexed(seen, specs)
    ensures Groups(front + [Entry(id, name)], specs') && Indexed(seen', specs')
    ensures AllIds(specs) && IsId(id) ==> AllIds(specs')
  {
    seen', specs' := seen, specs;
    if id in seen {
      var index := seen[id];
      GroupsAgain(front, specs, index, name);
      if specs'[index].name == "" && name != "" {
        specs' := specs'[index := specs'[index].(name := name)];
      }
      return;
    }
    SeenIffOccurs(front, seen, specs, id);
    GroupsNew(front, specs, id, name);
    IndexedNew(seen, specs, id, name);
    seen' := seen'[id := |specs|];
    specs' := specs' + [ListSpec(id, name)];
  }

  lemma OneMoreItem(items: seq<Item>, n: nat)
    requires n < |items|
    ensures items[..n + 1] == items[..n] + [items[n]]
    ensures AllGood(items[..n]) && !items[n].Bad? ==> AllGood(items[..n + 1])
  {
  }

  lemma NoSpecsNoEntries(items: seq<Item>)
    requires Groups(items, [])
    ensures forall i :: 0 <= i < |items| ==> !items[i].Entry?
  {
    forall i | 0 <= i < |items|
      ensures !items[i].Entry?
    {
      assert Covered(items, [], if items[i].Entry? then items[i].id else "");
    }
  }

  /** The loop body: skip, reject or register one line. */
  method TakeLine(urlPath: UrlPath, raw: string, seen: map<string, nat>, specs: seq<ListSpec>, ghost front: seq<Item>)
    returns (bad: bool, seen': map<string, nat>, specs': seq<ListSpec>)
    requires Registered(front, seen, specs)
    ensures bad <==> ParseLine(urlPath, raw).Bad?
    ensures !bad ==> Registered(front + [ParseLine(urlPath, raw)], seen', specs')
  {
    bad, seen', specs' := false, seen, specs;
    var line := TrimSpace(raw);
    if line == "" || "#" <= line {
      GroupsSkip(front, specs);
      return;
    }
    var (name, value) := ParseListInputLine(line);
    var extracted := ExtractListID(urlPath, value);
    if extracted.None? {
      bad := true;
      return;
    }
    seen', specs' := AddLine(seen, specs, extracted.value, name, front);
  }

  /** What parsing gives for these items: their grouping, or the first bad line, or the error
      that every line was skipped. */
  ghost predicate ResultOf(items: seq<Item>, r: Result<seq<ListSpec>, ParseError>) {
    match r
    case Ok(specs) => AllGood(items) && specs != [] && Groups(items, specs) && AllIds(specs)
    case Err(NothingFound) => forall i :: 0 <= i < |items| ==> items[i].Skip?
    case Err(BadLine(number)) => 1 <= number <= |items| && items[number - 1].Bad? && AllGood(items[..number - 1])
  }

  /** The loop has registered exactly these items. */
  ghost predicate Registered(items: seq<Item>, seen: map<string, nat>, specs: seq<ListSpec>) {
    AllGood(items) && Groups(items, specs) && Indexed(seen, specs) && AllIds(specs)
  }

  lemma NothingRegistered()
    ensures Registered([], map[], [])
  {
    assert forall id :: Covered([], [], id);
  }

  lemma RegisteredAll(items: seq<Item>, seen: map<string, nat>, specs: seq<ListSpec>)
    requires Registered(items, seen, specs)
    ensures ResultOf(items, if |specs| == 0 then Err(NothingFound) else Ok(specs))
  {
    if |specs| == 0 {
      assert specs == [];
      NoSpecsNoEntries(items);
    }
  }

  method ParseListSpecs(urlPath: UrlPath, input: string) returns (r: Result<seq<ListSpec>, ParseError>)
    ensures ResultOf(Items(urlPath, Lines(input)), r)
  {
    var lines := Lines(input);
    ghost var items := Items(urlPath, lines);
    var seen: map<string, nat> := map[];
    var specs: seq<ListSpec> := [];
    NothingRegistered();
    assert items[..0] == [];
    for lineNumber := 0 to |lines|
      invariant Registered(items[..lineNumber], seen, specs)
    {
      var bad;
      bad, seen, specs := TakeLine(urlPath, lines[lineNumber], seen, specs, items[..lineNumber]);
      OneMoreItem(items, lineNumber);
      if bad {
        return Err(BadLine(lineNumber + 1));
      }
    }
    assert items[..|lines|] == items;
    RegisteredAll(items, seen, specs);
    if |specs| == 0 {
      return Err(NothingFound);
    }
    return Ok(specs);
  }
}
