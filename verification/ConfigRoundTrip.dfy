/** Printing a configuration and reading it back: it comes back exactly when none
    of its names and values gets in the way of the notation. */
module ConfigRoundTrip {
  import opened ConfigText

  /** A header or setting that the notation can carry. */
  predicate CleanItem(item: Item) {
    && item.name != "" && Plain(item.name)
    && match item
       case Header(name) => ']' !in name
       case Setting(name, value) =>
         && name[0] !in {'\t', '#', ';', '['} && '=' !in name && ' ' !in name
         && value != "" && Plain(value) && |value| <= VALUE_LIMIT
         && value[0] !in SEPARATORS && value[|value| - 1] != '\r'
  }

  /** A configuration the notation can carry: the first section is unnamed and all
      else is clean. */
  predicate Clean(sections: Sections) {
    && sections != [] && sections[0].name == ""
    && forall k :: 0 < k < |Items(sections)| ==> CleanItem(Items(sections)[k])
  }

  /** What a printed item is read as. */
  function Survives(item: Item): seq<Item> {
    Collected(ItemLine(item), LineItems)
  }

  lemma {:induction false} SurvivesLine(item: Item)
    ensures Survives(item) == if item.name == "" then [] else LineItems(ItemLine(item)[0])
    ensures |Survives(item)| <= 1
  {
    if item.name != "" {
      var line := ItemLine(item);
      assert line[..0] == [];
      assert Collected(line, LineItems) == Collected(line[..0], LineItems) + LineItems(line[0]);
    }
  }

  lemma {:induction false} HeaderSurvives(name: string)
    requires name != ""
    ensures LineItem("[" + name + "]") == Some(Header(name)) <==> ']' !in name
  {
    var line := "[" + name + "]";
    assert StripReturn(line) == line && Skip(line, BLANKS) == line;
    assert line[1..] == name + "]";
    if ']' !in name {
      UptoIs(name, "]", {']'});
    }
  }

  /** A name without separators and a value not led by one come apart again. */
  lemma {:induction false} SettingComesApart(name: string, value: string)
    requires '=' !in name && ' ' !in name && value != "" && |value| <= VALUE_LIMIT && value[0] !in SEPARATORS
    ensures SettingItem(name + " = " + value) == Some(Setting(name, value))
  {
    var line := name + " = " + value;
    assert line == name + (" = " + value);
    UptoIs(name, " = " + value, SEPARATORS);
    assert line[|name|..] == " = " + value;
    SkipIs(" = ", value, SEPARATORS);
  }

  /** What begins like a setting is read as one. */
  lemma {:induction false} ReadAsSetting(s: string)
    requires s != "" && s[0] !in {' ', '\t', '#', ';', '['} && s[|s| - 1] != '\r'
    ensures LineItem(s) == SettingItem(s)
  {
    assert StripReturn(s) == s == Skip(s, BLANKS);
  }

  lemma {:induction false} EndsOfLine(name: string, value: string)
    requires name != "" && value != ""
    ensures var line := name + " = " + value;
            line != "" && line[0] == name[0] && line[|line| - 1] == value[|value| - 1]
  {
  }

  lemma {:induction false} CleanSettingSurvives(name: string, value: string)
    requires CleanItem(Setting(name, value))
    ensures LineItem(name + " = " + value) == Some(Setting(name, value))
  {
    EndsOfLine(name, value);
    assert name[0] in name;
    ReadAsSetting(name + " = " + value);
    SettingComesApart(name, value);
  }

  // ----- what lines are read as ------------------------------------------------

  predicate AllOf(s: string, chars: set<char>) {
    forall k | 0 <= k < |s| :: s[k] in chars
  }

  /** The end of a line: nothing, or a carriage return that is no part of it. */
  predicate Ending(content: string, cr: string) {
    cr == "\r" || (cr == "" && (content == "" || content[|content| - 1] != '\r'))
  }

  lemma {:induction false} Unpadded(pad: string, content: string, cr: string)
    requires AllOf(pad, {' ', '\t'}) && content != "" && content[0] !in {' ', '\t'} && Ending(content, cr)
    ensures Skip(StripReturn(pad + content + cr), BLANKS) == content
  {
    var line := pad + content;
    if cr == "" {
      assert pad + content + cr == line && line[|line| - 1] == content[|content| - 1];
    } else {
      assert (line + cr)[..|line|] == line;
    }
    SkipIs(pad, content, BLANKS);
  }

  lemma {:induction false} PaddedItem(pad: string, content: string, cr: string)
    requires AllOf(pad, {' ', '\t'}) && content != "" && content[0] !in {' ', '\t'} && Ending(content, cr)
    ensures LineItem(pad + content + cr) ==
              if content[0] == '#' || content[0] == ';' then None
              else if content[0] == '[' then HeaderItem(content[1..]) else SettingItem(content)
  {
    Unpadded(pad, content, cr);
  }

  lemma {:induction false} SettingParts(name: string, gap: string, value: string)
    requires (forall k | 0 <= k < |name| :: name[k] != '=' && name[k] != ' ') && AllOf(gap, {'=', ' '})
    requires gap != "" || value == ""
    requires value == "" || (value[0] != '=' && value[0] != ' ')
    ensures SettingItem(name + (gap + value)) ==
              if value == "" then None else Some(Setting(name, if |value| <= 511 then value else value[..511]))
  {
    var content := name + (gap + value);
    UptoIs(name, gap + value, SEPARATORS);
    assert content[|name|..] == gap + value;
    SkipIs(gap, value, SEPARATORS);
  }

  lemma {:induction false} Outermost(name: string, gap: string, value: string)
    requires gap != "" && value != ""
    ensures var content := name + (gap + value);
            content != "" && content[0] == (name + gap)[0] && content[|content| - 1] == value[|value| - 1]
  {
  }

  /** A setting has its name up to the first equals sign or space, and its value from
      behind all of these on, cut to 511 characters; blanks before it do not matter,
      and blanks behind it are kept. */
  lemma {:induction false} ReadsSetting(pad: string, name: string, gap: string, value: string, cr: string)
    requires AllOf(pad, {' ', '\t'}) && (forall k | 0 <= k < |name| :: name[k] != '=' && name[k] != ' ')
    requires gap != "" && AllOf(gap, {'=', ' '}) && value != "" && value[0] != '=' && value[0] != ' '
    requires (name + gap)[0] !in {' ', '\t', '#', ';', '['} && Ending(value, cr)
    ensures LineItem(pad + (name + (gap + value)) + cr) ==
              Some(Setting(name, if |value| <= 511 then value else value[..511]))
  {
    Outermost(name, gap, value);
    SettingParts(name, gap, value);
    PaddedItem(pad, name + (gap + value), cr);
  }

  /** Without a value there is none. */
  lemma {:induction false} ReadsNoSetting(pad: string, name: string, gap: string, cr: string)
    requires AllOf(pad, {' ', '\t'}) && (forall k | 0 <= k < |name| :: name[k] != '=' && name[k] != ' ')
    requires AllOf(gap, {'=', ' '}) && Ending(name + gap, cr)
    requires name + gap != "" && (name + gap)[0] !in {' ', '\t', '#', ';', '['}
    ensures LineItem(pad + (name + gap) + cr) == None
  {
    SettingParts(name, gap, "");
    assert gap + "" == gap;
    PaddedItem(pad, name + gap, cr);
  }

  lemma {:induction false} HeaderParts(name: string, rest: string)
    requires forall k | 0 <= k < |name| :: name[k] != ']'
    ensures HeaderItem(name + ("]" + rest)) == Some(Header(name)) && HeaderItem(name) == None
  {
    UptoIs(name, "]" + rest, {']'});
    assert name + "" == name;
    UptoIs(name, "", {']'});
  }

  /** A header has its name up to the first closing bracket, whatever follows. */
  lemma {:induction false} ReadsHeader(pad: string, name: string, rest: string, cr: string)
    requires AllOf(pad, {' ', '\t'}) && (forall k | 0 <= k < |name| :: name[k] != ']')
    requires Ending("[" + (name + ("]" + rest)), cr)
    ensures LineItem(pad + ("[" + (name + ("]" + rest))) + cr) == Some(Header(name))
  {
    HeaderParts(name, rest);
    assert ("[" + (name + ("]" + rest)))[1..] == name + ("]" + rest);
    PaddedItem(pad, "[" + (name + ("]" + rest)), cr);
  }

  lemma {:induction false} ReadsNoHeader(pad: string, name: string, cr: string)
    requires AllOf(pad, {' ', '\t'}) && (forall k | 0 <= k < |name| :: name[k] != ']') && Ending("[" + name, cr)
    ensures LineItem(pad + ("[" + name) + cr) == None
  {
    HeaderParts(name, "");
    assert ("[" + name)[1..] == name;
    PaddedItem(pad, "[" + name, cr);
  }

  /** Comments and blank lines say nothing. */
  lemma {:induction false} ReadsNothing(pad: string, comment: string, cr: string)
    requires AllOf(pad, {' ', '\t'}) && (comment == "" || comment[0] == '#' || comment[0] == ';')
    requires Ending(comment, cr)
    ensures LineItem(pad + comment + cr) == None
  {
    if comment == "" {
      assert pad + comment + cr == pad + cr && pad == pad + "";
      assert cr == "\r" ==> (pad + cr)[..|pad|] == pad;
      SkipIs(pad, "", BLANKS);
    } else {
      Unpadded(pad, comment, cr);
    }
  }

  /** A line cut short by its carriage return does not yield the whole value. */
  lemma {:induction false} ReturnIsLost(name: string, value: string)
    requires name != "" && name[0] !in BLANKS && value != "" && value[0] !in SEPARATORS && value[|value| - 1] == '\r'
    ensures LineItem(name + " = " + value) != Some(Setting(name, value))
  {
    var line, short := name + " = " + value, value[..|value| - 1];
    var l := StripReturn(line);
    assert l == name + (" = " + short);
    assert Skip(l, BLANKS) == l;
    var n := Upto(l, SEPARATORS);
    if n == name {
      assert l[|n|..] == " = " + short;
      SkipIs(" = ", short, SEPARATORS);
    }
  }

  /** What a setting that was read is like. */
  lemma {:induction false} SettingRead(s: string, name: string, value: string)
    requires SettingItem(s) == Some(Setting(name, value))
    ensures name <= s && '=' !in name && ' ' !in name
    ensures value != "" && value[0] !in SEPARATORS && |value| <= VALUE_LIMIT
  {
    var n := Upto(s, SEPARATORS);
    var v := Skip(s[|n|..], SEPARATORS);
    assert v[0] !in SEPARATORS && value == Cut(v);
  }

  /** Only a line that begins like a setting is read as one. */
  lemma {:induction false} SettingLine(line: string, name: string, value: string)
    requires LineItem(line) == Some(Setting(name, value))
    ensures var s := Skip(StripReturn(line), BLANKS);
            SettingItem(s) == Some(Setting(name, value)) && s != "" && s[0] !in {' ', '\t', '#', ';', '['}
  {
  }

  lemma {:induction false} SurvivorIsClean(name: string, value: string)
    requires name != "" && Plain(name) && Plain(value)
    requires LineItem(name + " = " + value) == Some(Setting(name, value))
    ensures CleanItem(Setting(name, value))
  {
    SettingLine(name + " = " + value, name, value);
    SettingRead(Skip(StripReturn(name + " = " + value), BLANKS), name, value);
    if value[|value| - 1] == '\r' {
      ReturnIsLost(name, value);
    }
  }

  lemma {:induction false} SurvivesIff(item: Item)
    requires PlainItem(item)
    ensures Fixed(Survives, item) <==> CleanItem(item)
  {
    SurvivesLine(item);
    if item.name != "" {
      match item
      case Header(name) => HeaderSurvives(name);
      case Setting(name, value) =>
        if CleanItem(item) {
          CleanSettingSurvives(name, value);
        } else if LineItem(name + " = " + value) == Some(item) {
          SurvivorIsClean(name, value);
        }
    }
  }

  // ----- all the lines -------------------------------------------------------

  predicate PlainItem(item: Item) {
    Plain(item.name) && (item.Setting? ==> Plain(item.value))
  }

  lemma {:induction false} PrintedLinesArePlain(items: seq<Item>)
    requires forall k :: 0 <= k < |items| ==> PlainItem(items[k])
    ensures forall k :: 0 <= k < |PrintedLines(items)| ==> Plain(PrintedLines(items)[k])
  {
    if items == [] {
    } else {
      var item := items[|items| - 1];
      PrintedLinesArePlain(items[..|items| - 1]);
      assert PlainItem(item);
      assert forall k :: 0 <= k < |ItemLine(item)| ==> Plain(ItemLine(item)[k]);
    }
  }

  /** The empty lines between sections are read as nothing. */
  lemma {:induction false} GapIsSkipped(before: seq<string>, item: Item)
    ensures Collected(before + Gap(item, before != []) + ItemLine(item), LineItems) ==
            Collected(before, LineItems) + Collected(ItemLine(item), LineItems)
  {
    var gap := Gap(item, before != []);
    CollectedSum(before, gap, LineItems);
    CollectedSum(before + gap, ItemLine(item), LineItems);
    GapIsNothing();
  }

  lemma {:induction false} PrintedIsRead(items: seq<Item>)
    ensures Collected(PrintedLines(items), LineItems) == Collected(items, Survives)
  {
    if items == [] {
    } else {
      PrintedIsRead(items[..|items| - 1]);
      GapIsSkipped(PrintedLines(items[..|items| - 1]), items[|items| - 1]);
    }
  }

  lemma {:induction false} GapIsNothing()
    ensures Collected([""], LineItems) == [] && Collected([], LineItems) == []
  {
    assert [""][..0] == [];
    assert Collected([""], LineItems) == Collected([""][..0], LineItems) + LineItems("");
  }

  lemma {:induction false} ReadItemsArePlain(lines: seq<string>)
    requires forall k :: 0 <= k < |lines| ==> Plain(lines[k])
    ensures forall item :: item in Collected(lines, LineItems) ==> PlainItem(item)
  {
    if lines == [] {
    } else {
      var line := lines[|lines| - 1];
      ReadItemsArePlain(lines[..|lines| - 1]);
      PartsArePlain(line);
    }
  }

  lemma {:induction false} ScannedIsPlain(s: string, chars: set<char>)
    requires Plain(s)
    ensures Plain(Skip(s, chars)) && Plain(Upto(s, chars))
  {
  }

  lemma {:induction false} PartsArePlain(line: string)
    requires Plain(line)
    ensures LineItem(line).Some? ==> PlainItem(LineItem(line).value)
  {
    var s := Skip(StripReturn(line), BLANKS);
    StrippedIsPlain(line);
    ScannedIsPlain(StripReturn(line), BLANKS);
    if s != "" {
      PartIsPlain(s);
    }
  }

  lemma {:induction false} PartIsPlain(s: string)
    requires Plain(s) && s != ""
    ensures var item := if s[0] == '[' then HeaderItem(s[1..]) else SettingItem(s);
            item.Some? ==> PlainItem(item.value)
  {
    if s[0] == '[' {
      HeaderIsPlain(s[1..]);
    } else {
      SettingIsPlain(s);
    }
  }

  lemma {:induction false} StrippedIsPlain(line: string)
    requires Plain(line)
    ensures Plain(StripReturn(line))
  {
  }

  lemma {:induction false} HeaderIsPlain(s: string)
    requires Plain(s)
    ensures HeaderItem(s).Some? ==> PlainItem(HeaderItem(s).value)
  {
    ScannedIsPlain(s, {']'});
  }

  lemma {:induction false} SettingIsPlain(s: string)
    requires Plain(s)
    ensures SettingItem(s).Some? ==> PlainItem(SettingItem(s).value)
  {
    ScannedIsPlain(s, SEPARATORS);
    ScannedIsPlain(s[|Upto(s, SEPARATORS)|..], SEPARATORS);
  }

  /** Two sums of a part and at most one item, the first part not the longer. */
  lemma {:induction false} PartsAgree(a: seq<Item>, b: seq<Item>, x: seq<Item>, item: Item)
    requires |a| <= |b| && |x| <= 1
    ensures a + x == b + [item] <==> a == b && x == [item]
  {
    if a + x == b + [item] {
      assert |a| == |b| && (a + x)[..|a|] == (b + [item])[..|b|];
      assert (a + x)[|a|] == (b + [item])[|b|];
    }
  }

  ghost predicate AtMostOne(f: Item -> seq<Item>) {
    forall item: Item :: |f(item)| <= 1
  }

  predicate Fixed(f: Item -> seq<Item>, item: Item) {
    f(item) == [item]
  }

  lemma {:induction false} SurvivorsAreFew()
    ensures AtMostOne(Survives)
  {
    forall item: Item
      ensures |Survives(item)| <= 1
    {
      SurvivesLine(item);
    }
  }

  /** Items that begin with one that is lost, and come back whole but for it: each
      of the others has come back as itself. */
  lemma {:induction false} AllSurvive(items: seq<Item>, f: Item -> seq<Item>)
    requires items != [] && f(items[0]) == [] && AtMostOne(f)
    ensures |Collected(items, f)| < |items|
    ensures Collected(items, f) == items[1..] <==> forall k :: 0 < k < |items| ==> Fixed(f, items[k])
  {
    var n := |items| - 1;
    var item, before := items[n], items[..n];
    if n == 0 {
      assert before == [];
    } else {
      AllSurvive(before, f);
      assert items[1..] == before[1..] + [item];
      PartsAgree(Collected(before, f), before[1..], f(item), item);
      assert forall k :: 0 < k < n ==> items[k] == before[k];
    }
  }

  lemma {:induction false} FirstItem(sections: Sections)
    requires sections != []
    ensures Items(sections) != [] && Items(sections)[0] == Header(sections[0].name)
  {
    if |sections| > 1 {
      FirstItem(sections[..|sections| - 1]);
    } else {
      assert sections[..0] == [];
    }
  }

  /** What is read back, as items. */
  lemma {:induction false} ReadBack(sections: Sections)
    requires forall item :: item in Items(sections) ==> PlainItem(item)
    ensures Items(Parsed(Printed(sections))) == [Header("")] + Collected(Items(sections), Survives)
  {
    var items := Items(sections);
    PrintedLinesArePlain(items);
    LinesOfText(PrintedLines(items));
    PrintedIsRead(items);
    ItemsOfGrouped(ItemsOfText(Printed(sections)));
  }

  lemma {:induction false} ParsedIsPlain(text: string)
    ensures forall item :: item in Items(Parsed(text)) ==> PlainItem(item)
  {
    forall k | 0 <= k < |Lines(text)|
      ensures Plain(Lines(text)[k])
    {
      LinesArePlain(text, k);
    }
    ReadItemsArePlain(Lines(text));
    ItemsOfGrouped(ItemsOfText(text));
  }

  lemma {:induction false} AllSurviveIff(items: seq<Item>)
    requires items != [] && items[0] == Header("") && forall item :: item in items ==> PlainItem(item)
    ensures Collected(items, Survives) == items[1..] <==> forall k :: 0 < k < |items| ==> CleanItem(items[k])
  {
    SurvivesLine(items[0]);
    SurvivorsAreFew();
    AllSurvive(items, Survives);
    forall k | 0 < k < |items|
      ensures Fixed(Survives, items[k]) <==> CleanItem(items[k])
    {
      SurvivesIff(items[k]);
    }
  }

  lemma {:induction false} PlainRoundTrip(sections: Sections)
    requires sections != [] && sections[0].name == "" && forall item :: item in Items(sections) ==> PlainItem(item)
    ensures Parsed(Printed(sections)) == sections <==> Clean(sections)
  {
    var items, back := Items(sections), Parsed(Printed(sections));
    FirstItem(sections);
    ReadBack(sections);
    AllSurviveIff(items);
    SameItems(back, sections);
    HeadAndRest(items, Collected(items, Survives));
  }

  lemma {:induction false} SameItems(a: Sections, b: Sections)
    ensures Items(a) == Items(b) <==> a == b
  {
    if Items(a) == Items(b) {
      ItemsAreInjective(a, b);
    }
  }

  lemma {:induction false} HeadAndRest(items: seq<Item>, rest: seq<Item>)
    requires items != [] && items[0] == Header("")
    ensures [Header("")] + rest == items <==> rest == items[1..]
  {
    if [Header("")] + rest == items {
      assert ([Header("")] + rest)[1..] == rest;
    }
  }

  lemma {:induction false} CleanIsPlain(sections: Sections)
    requires Clean(sections)
    ensures forall item :: item in Items(sections) ==> PlainItem(item)
  {
    FirstItem(sections);
  }

  /** Whatever the configuration, it is read back as it was printed if and only if
      it is clean. */
  lemma {:induction false} RoundTrip(sections: Sections)
    ensures Parsed(Printed(sections)) == sections <==> Clean(sections)
  {
    var back := Parsed(Printed(sections));
    if sections != [] {
      if back == sections {
        ParsedIsPlain(Printed(sections));
        FirstItem(sections);
        ItemsOfGrouped(ItemsOfText(Printed(sections)));
        PlainRoundTrip(sections);
      } else if Clean(sections) {
        CleanIsPlain(sections);
        PlainRoundTrip(sections);
      }
    }
  }
}
