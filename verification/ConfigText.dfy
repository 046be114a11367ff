/** The configuration file as text: what is printed for a configuration, what a
    text is read as, and exactly which configurations survive both. */
module ConfigText {
  datatype Option<T> = None | Some(value: T)

  datatype Entry = Entry(name: string, value: string)

  datatype Section = Section(name: string, entries: seq<Entry>)

  type Sections = seq<Section>

  /** A configuration read from the top: section headers and settings. */
  datatype Item = Header(name: string) | Setting(name: string, value: string)

  const NAME_LIMIT := 127
  const VALUE_LIMIT := 511
  const BLANKS := {' ', '\t'}
  const SEPARATORS := {'=', ' '}

  // ----- scanning ------------------------------------------------------------

  /** s without its leading characters of the set. */
  function Skip(s: string, over: set<char>): (r: string)
    ensures |r| <= |s| && r == s[|s| - |r|..]
    ensures r != "" ==> r[0] !in over
    ensures s != "" && s[0] !in over ==> r == s
  {
    if s == "" || s[0] !in over then s else Skip(s[1..], over)
  }

  /** The part of s before the first character of the set. */
  function Upto(s: string, stop: set<char>): (r: string)
    ensures r <= s && (forall k :: 0 <= k < |r| ==> r[k] !in stop)
    ensures |r| < |s| ==> s[|r|] in stop
  {
    if s == "" || s[0] in stop then "" else [s[0]] + Upto(s[1..], stop)
  }

  /** Upto finds the first stop and no other. */
  lemma {:induction false} UptoIs(a: string, b: string, stop: set<char>)
    requires forall k :: 0 <= k < |a| ==> a[k] !in stop
    requires b == "" || b[0] in stop
    ensures Upto(a + b, stop) == a
  {
    if a == "" {
      assert a + b == b;
    } else {
      assert (a + b)[1..] == a[1..] + b;
      UptoIs(a[1..], b, stop);
    }
  }

  lemma {:induction false} SkipIs(a: string, b: string, over: set<char>)
    requires forall k :: 0 <= k < |a| ==> a[k] in over
    requires b == "" || b[0] !in over
    ensures Skip(a + b, over) == b
  {
    if a == "" {
      assert a + b == b;
    } else {
      assert (a + b)[1..] == a[1..] + b;
      SkipIs(a[1..], b, over);
    }
  }

  // ----- lines ---------------------------------------------------------------

  /** The lines of a text; what follows the last line end is not read. */
  function Lines(text: string): seq<string>
    decreases |text|
  {
    var line := Upto(text, {'\n'});
    if |line| == |text| then [] else [line] + Lines(text[|line| + 1..])
  }

  function Text(lines: seq<string>): string {
    if lines == [] then "" else lines[0] + "\n" + Text(lines[1..])
  }

  predicate Plain(s: string) {
    '\n' !in s
  }

  lemma {:induction false} TextOfSum(a: seq<string>, b: seq<string>)
    ensures Text(a + b) == Text(a) + Text(b)
  {
    if a == [] {
      assert a + b == b;
    } else {
      assert (a + b)[1..] == a[1..] + b;
      TextOfSum(a[1..], b);
    }
  }

  lemma {:induction false} LinesOfText(lines: seq<string>)
    requires forall k :: 0 <= k < |lines| ==> Plain(lines[k])
    ensures Lines(Text(lines)) == lines
  {
    if lines == [] {
    } else {
      var rest := "\n" + Text(lines[1..]);
      assert Text(lines) == lines[0] + rest;
      UptoIs(lines[0], rest, {'\n'});
      assert Text(lines)[|lines[0]| + 1..] == Text(lines[1..]);
      LinesOfText(lines[1..]);
    }
  }

  /** What follows the last line end is lost. */
  lemma {:induction false} UnendedLine(lines: seq<string>, rest: string)
    requires (forall k :: 0 <= k < |lines| ==> '\n' !in lines[k]) && '\n' !in rest
    ensures Lines(Text(lines) + rest) == lines
  {
    if lines == [] {
      assert Text(lines) + rest == rest + "";
      UptoIs(rest, "", {'\n'});
    } else {
      var behind := "\n" + (Text(lines[1..]) + rest);
      assert Text(lines) + rest == lines[0] + behind;
      UptoIs(lines[0], behind, {'\n'});
      assert (Text(lines) + rest)[|lines[0]| + 1..] == Text(lines[1..]) + rest;
      UnendedLine(lines[1..], rest);
    }
  }

  lemma {:induction false} LinesArePlain(text: string, k: nat)
    requires k < |Lines(text)|
    ensures Plain(Lines(text)[k])
    decreases |text|
  {
    var line := Upto(text, {'\n'});
    if k == 0 {
    } else {
      LinesArePlain(text[|line| + 1..], k - 1);
    }
  }

  // ----- reading a line ------------------------------------------------------

  function StripReturn(line: string): string {
    if line != "" && line[|line| - 1] == '\r' then line[..|line| - 1] else line
  }

  function Cut(value: string): string {
    if |value| > VALUE_LIMIT then value[..VALUE_LIMIT] else value
  }

  /** A header, from behind its bracket; nothing unless the bracket is closed. */
  function HeaderItem(s: string): Option<Item> {
    var name := Upto(s, {']'});
    if |name| == |s| then None else Some(Header(name))
  }

  /** A setting; nothing without a value. */
  function SettingItem(s: string): Option<Item> {
    var name := Upto(s, SEPARATORS);
    var value := Skip(s[|name|..], SEPARATORS);
    if value == "" then None else Some(Setting(name, Cut(value)))
  }

  /** What a line is read as: at most one header or setting. */
  function LineItem(line: string): Option<Item> {
    var s := Skip(StripReturn(line), BLANKS);
    if s == "" || s[0] in {'#', ';'} then None
    else if s[0] == '[' then HeaderItem(s[1..])
    else SettingItem(s)
  }

  function LineItems(line: string): seq<Item> {
    var item := LineItem(line);
    if item.None? then [] else [item.value]
  }

  /** What f makes of all the elements, one after the other. */
  function Collected<T>(xs: seq<T>, f: T -> seq<Item>): seq<Item> {
    if xs == [] then [] else Collected(xs[..|xs| - 1], f) + f(xs[|xs| - 1])
  }

  lemma {:induction false} CollectedSum<T>(a: seq<T>, b: seq<T>, f: T -> seq<Item>)
    ensures Collected(a + b, f) == Collected(a, f) + Collected(b, f)
  {
    if b == [] {
      assert a + b == a;
    } else {
      var n := |a + b| - 1;
      assert (a + b)[..n] == a + b[..|b| - 1] && (a + b)[n] == b[|b| - 1];
      CollectedSum(a, b[..|b| - 1], f);
    }
  }

  /** What a text is read as, line by line. */
  function ItemsOfText(text: string): seq<Item> {
    Collected(Lines(text), LineItems)
  }

  // ----- printing ------------------------------------------------------------

  /** The line an item is printed as; nothing without a name. */
  function ItemLine(item: Item): seq<string> {
    if item.name == "" then []
    else if item.Header? then ["[" + item.name + "]"]
    else [item.name + " = " + item.value]
  }

  /** A header is set off by an empty line unless it comes first. */
  function Gap(item: Item, printed: bool): seq<string> {
    if item.Header? && item.name != "" && printed then [""] else []
  }

  function PrintedLines(items: seq<Item>): seq<string> {
    if items == [] then []
    else
      var before, item := PrintedLines(items[..|items| - 1]), items[|items| - 1];
      before + Gap(item, before != []) + ItemLine(item)
  }

  function SectionItems(s: Section): seq<Item> {
    [Header(s.name)] + seq(|s.entries|,
        i requires 0 <= i < |s.entries| => Setting(s.entries[i].name, s.entries[i].value))
  }

  function Items(sections: Sections): seq<Item> {
    if sections == [] then [] else Items(sections[..|sections| - 1]) + SectionItems(sections[|sections| - 1])
  }

  function Printed(sections: Sections): string {
    Text(PrintedLines(Items(sections)))
  }

  // ----- reading a text ------------------------------------------------------

  /** A header opens a section; a setting goes into the last one. */
  function Add(sections: Sections, item: Item): (r: Sections)
    requires sections != []
    ensures r != []
  {
    var last := |sections| - 1;
    match item
    case Header(name) => sections + [Section(name, [])]
    case Setting(name, value) =>
      sections[last := Section(sections[last].name, sections[last].entries + [Entry(name, value)])]
  }

  /** Reading starts with an unnamed section. */
  function Grouped(items: seq<Item>): (r: Sections)
    ensures r != []
  {
    if items == [] then [Section("", [])] else Add(Grouped(items[..|items| - 1]), items[|items| - 1])
  }

  function Parsed(text: string): Sections {
    Grouped(ItemsOfText(text))
  }

  /** A section put behind others puts its items behind theirs. */
  lemma {:induction false} ItemsOfMore(before: Sections, s: Section, all: Sections)
    requires all == before + [s]
    ensures Items(all) == Items(before) + SectionItems(s)
  {
    assert all[..|all| - 1] == before;
  }

  lemma {:induction false} ItemsOfAdd(sections: Sections, item: Item)
    requires sections != []
    ensures Items(Add(sections, item)) == Items(sections) + [item]
  {
    match item
    case Header(name) =>
      ItemsOfMore(sections, Section(name, []), Add(sections, item));
    case Setting(name, value) =>
      var before, s := sections[..|sections| - 1], sections[|sections| - 1];
      var s' := Section(s.name, s.entries + [Entry(name, value)]);
      ItemsOfMore(before, s, sections);
      ItemsOfMore(before, s', Add(sections, item));
      assert SectionItems(s') == SectionItems(s) + [item];
  }

  lemma {:induction false} ItemsOfGrouped(items: seq<Item>)
    ensures Items(Grouped(items)) == [Header("")] + items
  {
    if items == [] {
      var s := [Section("", [])];
      assert s[..0] == [];
      assert Items(s) == Items(s[..0]) + SectionItems(s[0]);
    } else {
      ItemsOfGrouped(items[..|items| - 1]);
      ItemsOfAdd(Grouped(items[..|items| - 1]), items[|items| - 1]);
      assert items == items[..|items| - 1] + [items[|items| - 1]];
    }
  }

  lemma {:induction false} LastHeader(all: seq<Item>, x: nat, s: Section)
    requires x <= |all| && all[x..] == SectionItems(s)
    ensures x < |all| && all[x].Header? && forall k :: x < k < |all| ==> !all[k].Header?
  {
    forall k | x <= k < |all|
      ensures all[k] == SectionItems(s)[k - x]
    {
      assert all[k] == all[x..][k - x];
    }
  }

  /** The items determine the sections: the last header is where the last section
      starts. */
  lemma {:induction false} ItemsAreInjective(a: Sections, b: Sections)
    requires Items(a) == Items(b)
    ensures a == b
  {
    if a == [] || b == [] {
      SectionsHaveItems(a);
      SectionsHaveItems(b);
    } else {
      var s, t := a[|a| - 1], b[|b| - 1];
      var all, x, y := Items(a), |Items(a)| - |SectionItems(s)|, |Items(b)| - |SectionItems(t)|;
      assert all[x..] == SectionItems(s) && all[y..] == SectionItems(t);
      LastHeader(all, x, s);
      LastHeader(all, y, t);
      SameSection(s, t);
      assert all[..x] == Items(a[..|a| - 1]) && all[..y] == Items(b[..|b| - 1]);
      ItemsAreInjective(a[..|a| - 1], b[..|b| - 1]);
      assert a == a[..|a| - 1] + [s] && b == b[..|b| - 1] + [t];
    }
  }

  lemma {:induction false} SectionsHaveItems(a: Sections)
    ensures Items(a) == [] <==> a == []
  {
  }

  lemma {:induction false} SameSection(s: Section, t: Section)
    requires SectionItems(s) == SectionItems(t)
    ensures s == t
  {
    assert SectionItems(s)[0] == SectionItems(t)[0];
    forall k | 0 <= k < |s.entries|
      ensures s.entries[k] == t.entries[k]
    {
      assert SectionItems(s)[k + 1] == SectionItems(t)[k + 1];
    }
  }
}
