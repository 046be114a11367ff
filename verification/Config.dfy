/** The configuration in memory: lists of sections and entries that are searched,
    appended to, read from a text and written to one. */
module Config {
  import opened ConfigText
  import opened ConfigRoundTrip

  // ----- what a program sees -------------------------------------------------

  /** Where the first section of a name is; the length if there is none. */
  function IndexOf(sections: Sections, cat: string): (i: nat)
    ensures i <= |sections| && (i < |sections| ==> sections[i].name == cat)
    ensures forall k :: 0 <= k < i ==> sections[k].name != cat
  {
    if sections == [] || sections[0].name == cat then 0 else 1 + IndexOf(sections[1..], cat)
  }

  function EntriesOf(sections: Sections, cat: string): seq<Entry> {
    var i := IndexOf(sections, cat);
    if i < |sections| then sections[i].entries else []
  }

  /** The values of all the entries of a name, in order. */
  function Named(entries: seq<Entry>, name: string): seq<string> {
    if entries == [] then []
    else
      var last := entries[|entries| - 1];
      Named(entries[..|entries| - 1], name) + if last.name == name then [last.value] else []
  }

  /** The values of a variable; the first one counts, the others are shadowed. */
  function Values(sections: Sections, cat: string, name: string): seq<string> {
    Named(EntriesOf(sections, cat), name)
  }

  lemma {:induction false} NamedSum(a: seq<Entry>, b: seq<Entry>, name: string)
    ensures Named(a + b, name) == Named(a, name) + Named(b, name)
  {
    if b == [] {
      assert a + b == a;
    } else {
      var n := |a + b| - 1;
      assert (a + b)[..n] == a + b[..|b| - 1] && (a + b)[n] == b[|b| - 1];
      NamedSum(a, b[..|b| - 1], name);
    }
  }

  lemma {:induction false} NoneNamed(entries: seq<Entry>, name: string)
    requires forall k :: 0 <= k < |entries| ==> entries[k].name != name
    ensures Named(entries, name) == []
  {
    if entries == [] {
    } else {
      NoneNamed(entries[..|entries| - 1], name);
    }
  }

  /** The values split at an entry. */
  lemma {:induction false} NamedAt(entries: seq<Entry>, i: nat, name: string)
    requires i < |entries|
    ensures Named(entries, name) ==
              Named(entries[..i], name) + (if entries[i].name == name then [entries[i].value]
                  else []) + Named(entries[i + 1..], name)
  {
    var one := [entries[i]];
    assert one[..0] == [];
    assert Named(one, name) == Named(one[..0], name) + if entries[i].name == name then [entries[i].value] else [];
    assert entries == entries[..i] + one + entries[i + 1..];
    NamedSum(entries[..i] + one, entries[i + 1..], name);
    NamedSum(entries[..i], one, name);
  }

  /** The values without the first entry of a name. */
  lemma {:induction false} EntryRemoved(e: seq<Entry>, j: nat, name: string)
    requires j < |e| && forall k :: 0 <= k < j ==> e[k].name != e[j].name
    ensures Named(e[..j] + e[j + 1..], name) == if name == e[j].name then Named(e[j + 1..], name) else Named(e, name)
  {
    NamedSum(e[..j], e[j + 1..], name);
    NamedAt(e, j, name);
    if name == e[j].name {
      NoneNamed(e[..j], name);
    }
  }

  /** The values with the first entry of a name replaced. */
  lemma {:induction false} EntryReplaced(e: seq<Entry>, j: nat, value: string, name: string)
    requires j < |e| && forall k :: 0 <= k < j ==> e[k].name != e[j].name
    ensures Named(e[j := Entry(e[j].name, value)], name) ==
              if name == e[j].name then [value] + Named(e[j + 1..], name) else Named(e, name)
  {
    var entries := e[j := Entry(e[j].name, value)];
    assert entries[..j] == e[..j] && entries[j + 1..] == e[j + 1..];
    NamedAt(entries, j, name);
    NamedAt(e, j, name);
    if name == e[j].name {
      NoneNamed(e[..j], name);
    }
  }

  /** The section found is the one whose index meets the description. */
  lemma {:induction false} IndexIs(sections: Sections, cat: string, i: nat)
    requires i <= |sections| && (i < |sections| ==> sections[i].name == cat)
    requires forall k :: 0 <= k < i ==> sections[k].name != cat
    ensures IndexOf(sections, cat) == i
  {
  }

  /** Replacing the entries of the first section of a name. */
  function WithEntries(sections: Sections, i: nat, entries: seq<Entry>): Sections
    requires i < |sections|
  {
    sections[i := Section(sections[i].name, entries)]
  }

  lemma {:induction false} OnlyThatSection(sections: Sections, i: nat, entries: seq<Entry>, cat: string)
    requires i < |sections|
    ensures EntriesOf(WithEntries(sections, i, entries), cat) ==
              if i == IndexOf(sections, cat) then entries else EntriesOf(sections, cat)
  {
    var s := WithEntries(sections, i, entries);
    assert forall k :: 0 <= k < |s| ==> s[k].name == sections[k].name;
    IndexIs(s, cat, IndexOf(sections, cat));
  }

  lemma {:induction false} EmptySectionAdded(sections: Sections, name: string, cat: string)
    ensures var s := sections + [Section(name, [])];
            && EntriesOf(s, cat) == EntriesOf(sections, cat)
            && (IndexOf(s, cat) == |sections| <==> IndexOf(sections, cat) == |sections| && cat == name)
  {
    var s := sections + [Section(name, [])];
    var i := IndexOf(sections, cat);
    if i < |sections| || cat == name {
      IndexIs(s, cat, i);
    } else {
      IndexIs(s, cat, |s|);
    }
  }

  // ----- names longer than the buffers ---------------------------------------

  /** What the name buffers keep of a name. */
  function Stored(name: string): string {
    if |name| > NAME_LIMIT then name[..NAME_LIMIT] else name
  }

  /** All names fit their buffers. */
  predicate Short(sections: Sections) {
    forall i | 0 <= i < |sections| :: |sections[i].name| <= NAME_LIMIT && ShortEntries(sections[i].entries)
  }

  predicate ShortEntries(entries: seq<Entry>) {
    forall j | 0 <= j < |entries| :: |entries[j].name| <= NAME_LIMIT
  }

  /** The values of a variable c, n after name in section cat has been set.  A name
      that was cut is not the name set: it hides behind what has it already. */
  function ValuesAfterSet(before: Sections, cat: string, name: string, value: string, c: string,
                          n: string): seq<string> {
    var values := Values(before, c, n);
    if c != Stored(cat) || n != Stored(name)
        || (cat != Stored(cat) && IndexOf(before, Stored(cat)) < |before|) then values
    else if c == cat && n == name && values != [] then [value] + values[1..]
    else values + [value]
  }

  /** The same once the entry is to go into the section at i. */
  function ValuesAfterEntry(before: Sections, i: nat, name: string, value: string, c: string, n: string): seq<string> {
    var values := Values(before, c, n);
    if i != IndexOf(before, c) || n != Stored(name) then values
    else if n == name && values != [] then [value] + values[1..]
    else values + [value]
  }

  /** The values of a name after the entry found at j, or else a new one, has been set. */
  lemma {:induction false} NamedAfterEntry(e: seq<Entry>, j: nat, name: string, value: string, n: string)
    requires j <= |e| && (forall k :: 0 <= k < j ==> e[k].name != name)
             && (j < |e| ==> e[j].name == name == Stored(name))
    requires j == |e| ==> Named(e, name) == []
    ensures var e' := if j == |e| then e + [Entry(Stored(name), value)] else e[j := Entry(name, value)];
            Named(e', n) == if n != Stored(name) then Named(e, n)
                            else if n == name && Named(e, n) != [] then [value] + Named(e, n)[1..]
                            else Named(e, n) + [value]
  {
    if j == |e| {
      assert (e + [Entry(Stored(name), value)])[..|e|] == e;
    } else {
      EntryReplaced(e, j, value, n);
      NoneNamed(e[..j], name);
      NamedAt(e, j, n);
    }
  }

  /** What that means for the values seen. */
  lemma {:induction false} ValuesOfOne(before: Sections, after: Sections, i: nat, entries: seq<Entry>, name: string,
                                       value: string, c: string, n: string)
    requires i < |before| && EntriesOf(after, c) == if i == IndexOf(before, c) then entries else EntriesOf(before, c)
    requires var values := Named(before[i].entries, n);
             Named(entries, n) == if n != Stored(name) then values
                                  else if n == name && values != [] then [value] + values[1..]
                                  else values + [value]
    ensures Values(after, c, n) == ValuesAfterEntry(before, i, name, value, c, n)
  {
  }

  lemma {:induction false} SetValues(before: Sections, found: Sections, i: nat, cat: string, name: string,
                                     value: string,
                                     c: string, n: string)
    requires EntriesOf(found, c) == EntriesOf(before, c)
    requires i == IndexOf(found, c) <==> c == Stored(cat) && (cat == Stored(cat) || IndexOf(before, c) == |before|)
    ensures ValuesAfterEntry(found, i, name, value, c, n) == ValuesAfterSet(before, cat, name, value, c, n)
  {
  }

  /** No name longer than the buffer has values. */
  lemma {:induction false} LongNameHasNone(sections: Sections, cat: string, name: string)
    requires Short(sections) && (|cat| > 127 || |name| > 127)
    ensures Values(sections, cat, name) == []
  {
    NoneNamed(EntriesOf(sections, cat), name);
  }

  /** The scanning loops of config_read, a character at a time. */
  method SkipFrom(buff: string, start: nat, over: set<char>) returns (c: nat)
    requires start <= |buff|
    ensures start <= c <= |buff| && buff[c..] == Skip(buff[start..], over)
  {
    c := start;
    while c < |buff| && buff[c] in over
      invariant start <= c <= |buff| && Skip(buff[c..], over) == Skip(buff[start..], over)
    {
      c := c + 1;
    }
  }

  lemma {:induction false} UptoStep(name: string, s: string, stop: set<char>)
    requires s != "" && s[0] !in stop
    ensures name + Upto(s, stop) == name + [s[0]] + Upto(s[1..], stop)
  {
  }

  lemma {:induction false} UptoEnd(name: string, s: string, stop: set<char>)
    requires s == "" || s[0] in stop
    ensures name + Upto(s, stop) == name
  {
  }

  method CopyFrom(buff: string, start: nat, stop: set<char>) returns (name: string, c: nat)
    requires start <= |buff|
    ensures name == Upto(buff[start..], stop) && c == start + |name| <= |buff|
  {
    c, name := start, "";
    ghost var whole, rest := Upto(buff[start..], stop), buff[start..];
    while c < |buff| && buff[c] !in stop
      invariant start <= c <= |buff| && |name| == c - start && rest == buff[c..]
      invariant name + Upto(rest, stop) == whole
    {
      UptoStep(name, rest, stop);
      name := name + [buff[c]];
      rest := rest[1..];
      c := c + 1;
    }
    UptoEnd(name, rest, stop);
  }

  /** One line of config_read. */
  method ReadLine(raw: string) returns (item: Option<Item>)
    ensures item == LineItem(raw)
  {
    var buff := StripReturn(raw);
    var c := SkipFrom(buff, 0, BLANKS);
    assert buff[0..] == buff;
    ghost var s := buff[c..];
    if c == |buff| || buff[c] in {'#', ';'} {
      return None;
    }
    var name;
    if buff[c] == '[' {
      assert buff[c + 1..] == s[1..];
      name, c := CopyFrom(buff, c + 1, {']'});
      return if c == |buff| then None else Some(Header(name));
    }
    ghost var c0 := c;
    name, c := CopyFrom(buff, c, SEPARATORS);
    assert buff[c..] == s[|name|..];
    c := SkipFrom(buff, c, SEPARATORS);
    return if c == |buff| then None else Some(Setting(name, Cut(buff[c..])));
  }

  lemma {:induction false} LinesStep(seen: seq<string>, rest: string)
    requires |Upto(rest, {'\n'})| < |rest|
    ensures var line := Upto(rest, {'\n'}); seen + Lines(rest) == seen + [line] + Lines(rest[|line| + 1..])
  {
  }

  lemma {:induction false} LinesEnd(seen: seq<string>, rest: string)
    requires |Upto(rest, {'\n'})| == |rest|
    ensures seen + Lines(rest) == seen
  {
  }

  /** What one more line adds to the sections. */
  lemma {:induction false} ReadingOn(seen: seq<string>, line: string)
    ensures var before, item := Grouped(Collected(seen, LineItems)), LineItem(line);
            Grouped(Collected(seen + [line], LineItems)) == if item.Some? then Add(before, item.value) else before
  {
    var items, more := Collected(seen, LineItems), LineItems(line);
    assert (seen + [line])[..|seen|] == seen;
    assert Collected(seen + [line], LineItems) == items + more;
    if more != [] {
      assert (items + more)[..|items|] == items;
    } else {
      assert items + more == items;
    }
  }

  class Configuration {
    var sections: Sections

    /** The empty configuration with its unnamed section. */
    constructor ()
      ensures sections == [Section("", [])]
    {
      sections := [Section("", [])];
    }

    /** find_section */
    method FindSection(name: string) returns (i: nat)
      ensures i == IndexOf(sections, name)
    {
      i := 0;
      while i < |sections| && sections[i].name != name
        invariant i <= |sections| && forall k :: 0 <= k < i ==> sections[k].name != name
      {
        i := i + 1;
      }
      IndexIs(sections, name, i);
    }

    /** find_entry */
    method FindEntry(i: nat, name: string) returns (j: nat)
      requires i < |sections|
      ensures j <= |sections[i].entries| && (j < |sections[i].entries| ==> sections[i].entries[j].name == name)
      ensures forall k :: 0 <= k < j ==> sections[i].entries[k].name != name
      ensures var named := Named(sections[i].entries, name);
              if j == |sections[i].entries| then named == []
              else named == [sections[i].entries[j].value] + Named(sections[i].entries[j + 1..], name)
    {
      j := 0;
      while j < |sections[i].entries| && sections[i].entries[j].name != name
        invariant j <= |sections[i].entries| && forall k :: 0 <= k < j ==> sections[i].entries[k].name != name
      {
        j := j + 1;
      }
      NoneNamed(sections[i].entries[..j], name);
      if j == |sections[i].entries| {
        assert sections[i].entries[..j] == sections[i].entries;
      } else {
        NamedAt(sections[i].entries, j, name);
      }
    }

    /** config_get_wstring */
    method Get(cat: string, name: string, def: string) returns (value: string)
      ensures var values := Values(sections, cat, name); value == if values == [] then def else values[0]
    {
      var i := FindSection(cat);
      if i == |sections| {
        return def;
      }
      var j := FindEntry(i, name);
      if j == |sections[i].entries| {
        return def;
      }
      value := sections[i].entries[j].value;
    }

    /** find_section, and create_section if it finds none. */
    method FindOrCreateSection(cat: string) returns (i: nat)
      requires Short(sections)
      modifies this
      ensures Short(sections) && i < |sections| && i == IndexOf(old(sections), cat)
      ensures sections == old(sections) + if i < |old(sections)| then []
                else [Section(if |cat| > 127 then cat[..127] else cat, [])]
      ensures forall c :: EntriesOf(sections, c) == EntriesOf(old(sections), c)
      ensures forall c :: i == IndexOf(sections, c) <==>
                            c == Stored(cat) && (cat == Stored(cat) || IndexOf(old(sections), c) == |old(sections)|)
    {
      i := FindSection(cat);
      if i == |sections| {
        forall c
          ensures EntriesOf(sections + [Section(Stored(cat), [])], c) == EntriesOf(sections, c)
          ensures i == IndexOf(sections + [Section(Stored(cat), [])], c) <==>
                  IndexOf(sections, c) == |sections| && c == Stored(cat)
        {
          EmptySectionAdded(sections, Stored(cat), c);
        }
        sections := sections + [Section(Stored(cat), [])];
      }
    }

    method SetEntries(i: nat, entries: seq<Entry>)
      requires i < |sections|
      modifies this
      ensures forall c :: EntriesOf(sections, c) ==
                          if i == IndexOf(old(sections), c) then entries else EntriesOf(old(sections), c)
      ensures sections == WithEntries(old(sections), i, entries)
    {
      forall c
        ensures EntriesOf(WithEntries(sections, i, entries), c) == if i == IndexOf(sections, c) then entries
                else EntriesOf(sections, c)
      {
        OnlyThatSection(sections, i, entries, c);
      }
      sections := WithEntries(sections, i, entries);
    }

    /** Gives the entry of a name in a section the value: the first one there is, or
        one created under what the buffer keeps of the name. */
    method SetEntry(i: nat, name: string, value: string)
      requires i < |sections| && Short(sections)
      modifies this
      ensures Short(sections)
      ensures forall c, n :: Values(sections, c, n) == ValuesAfterEntry(old(sections), i, name, value, c, n)
    {
      ghost var before := sections;
      var j := FindEntry(i, name);
      var entries := sections[i].entries;
      if j == |entries| {
        entries := entries + [Entry(Stored(name), value)];
      } else {
        entries := entries[j := Entry(name, value)];
      }
      SetEntries(i, entries);
      forall c, n
        ensures Values(sections, c, n) == ValuesAfterEntry(before, i, name, value, c, n)
      {
        NamedAfterEntry(before[i].entries, j, name, value, n);
        ValuesOfOne(before, sections, i, entries, name, value, c, n);
      }
    }

    /** config_set_wstring.  For names that fit the buffers, the variable has the
        value, any shadowed ones stay, and no other variable changes; a variable
        with a longer name is not there afterwards. */
    method Set(cat: string, name: string, value: string)
      requires Short(sections) && |value| <= 511
      modifies this
      ensures Short(sections)
      ensures forall c, n :: Values(sections, c, n) == ValuesAfterSet(old(sections), cat, name, value, c, n)
      ensures if |cat| <= 127 && |name| <= 127 then Values(sections, cat, name) != []
              && Values(sections, cat, name)[0] == value
              else Values(sections, cat, name) == []
      // a name that is too long goes by what its buffer keeps of it
      ensures |cat| <= 127 < |name| ==>
                Values(sections, cat, name[..127]) == Values(old(sections), cat, name[..127]) + [value]
    {
      ghost var before := sections;
      var i := FindOrCreateSection(cat);
      ghost var found := sections;
      SetEntry(i, name, value);
      forall c, n
        ensures Values(sections, c, n) == ValuesAfterSet(before, cat, name, value, c, n)
      {
        SetValues(before, found, i, cat, name, value, c, n);
      }
      if |cat| > NAME_LIMIT || |name| > NAME_LIMIT {
        LongNameHasNone(sections, cat, name);
      }
    }

    /** config_delete_var: the first value goes and the next one, if any, shows;
        the variable is gone exactly when it was there once at most. */
    method Delete(cat: string, name: string)
      modifies this
      ensures var before := Values(old(sections), cat, name);
              Values(sections, cat, name) == if before == [] then [] else before[1..]
      ensures Values(sections, cat, name) == [] <==> |Values(old(sections), cat, name)| <= 1
      ensures forall c, n :: c != cat || n != name ==> Values(sections, c, n) == Values(old(sections), c, n)
    {
      var i := FindSection(cat);
      if i == |sections| {
        return;
      }
      var j := FindEntry(i, name);
      if j < |sections[i].entries| {
        ghost var e := sections[i].entries;
        forall n
          ensures Named(e[..j] + e[j + 1..], n) == if n == name then Named(e[j + 1..], n) else Named(e, n)
        {
          EntryRemoved(e, j, n);
        }
        SetEntries(i, sections[i].entries[..j] + sections[i].entries[j + 1..]);
      }
    }

    /** The whole of config_read. */
    method Read(text: string)
      modifies this
      ensures sections == Parsed(text)
    {
      sections := [Section("", [])];
      var rest := text;
      ghost var seen: seq<string> := [];
      while true
        invariant Lines(text) == seen + Lines(rest)
        invariant sections == Grouped(Collected(seen, LineItems))
        decreases |rest|
      {
        var line := Upto(rest, {'\n'});
        if |line| == |rest| {
          LinesEnd(seen, rest);
          return;
        }
        var item := ReadLine(line);
        ReadingOn(seen, line);
        if item.Some? {
          sections := Add(sections, item.value);
        }
        LinesStep(seen, rest);
        rest := rest[|line| + 1..];
        seen := seen + [line];
      }
    }

    /** The entries of a section, after the items printed so far. */
    method WriteEntries(s: Section, text0: string, printed0: nat, ghost items: seq<Item>)
                        returns (text: string, printed: nat)
      requires text0 == Text(PrintedLines(items)) && (printed0 > 0 <==> PrintedLines(items) != [])
      ensures text == Text(PrintedLines(items + SectionItems(s)[1..]))
      ensures printed > 0 <==> PrintedLines(items + SectionItems(s)[1..]) != []
    {
      text, printed := text0, printed0;
      ghost var done, entries := items, SectionItems(s)[1..];
      for j := 0 to |s.entries|
        invariant done == items + entries[..j]
        invariant text == Text(PrintedLines(done)) && (printed > 0 <==> PrintedLines(done) != [])
      {
        var e := s.entries[j];
        Printing(done, Setting(e.name, e.value));
        if e.name != "" {
          text := text + (if e.value == "" then e.name + " = \n" else e.name + " = " + e.value + "\n");
          printed := printed + 1;
        }
        OneMore(items, entries, j);
        done := done + [Setting(e.name, e.value)];
      }
      assert entries[..|s.entries|] == entries;
    }

    /** config_write */
    method Write() returns (text: string)
      ensures text == Printed(sections)
    {
      text := "";
      var printed := 0;
      for i := 0 to |sections|
        invariant text == Text(PrintedLines(Items(sections[..i])))
        invariant printed > 0 <==> PrintedLines(Items(sections[..i])) != []
      {
        var s := sections[i];
        ghost var items := Items(sections[..i]);
        NextSection(sections, i);
        Printing(items, Header(s.name));
        if s.name != "" {
          text := text + (if printed > 0 then "\n[" + s.name + "]\n" else "[" + s.name + "]\n");
          printed := printed + 1;
        }
        text, printed := WriteEntries(s, text, printed, items + [Header(s.name)]);
      }
      assert sections[..|sections|] == sections;
    }

    /** A configuration written and read back: the same if and only if it is clean. */
    method WriteAndRead()
      modifies this
      ensures sections == old(sections) <==> Clean(old(sections))
    {
      RoundTrip(sections);
      var text := Write();
      Read(text);
    }
  }

  /** What one more item adds to the text. */
  function Appended(item: Item, printed: bool): string {
    if item.name == "" then ""
    else if item.Header? then if printed then "\n[" + item.name + "]\n" else "[" + item.name + "]\n"
    else if item.value == "" then item.name + " = \n"
    else item.name + " = " + item.value + "\n"
  }

  lemma {:induction false} OneMore(items: seq<Item>, more: seq<Item>, j: nat)
    requires j < |more|
    ensures items + more[..j] + [more[j]] == items + more[..j + 1]
  {
  }

  lemma {:induction false} PrintedStep(items: seq<Item>, item: Item)
    ensures var lines := PrintedLines(items);
            PrintedLines(items + [item]) == lines + Gap(item, lines != []) + ItemLine(item)
  {
    assert (items + [item])[..|items|] == items;
  }

  lemma {:induction false} Printing(items: seq<Item>, item: Item)
    ensures Text(PrintedLines(items + [item])) == Text(PrintedLines(items)) + Appended(item, PrintedLines(items) != [])
    ensures PrintedLines(items + [item]) == [] <==> PrintedLines(items) == [] && item.name == ""
  {
    var lines, gap, line := PrintedLines(items), Gap(item, PrintedLines(items) != []), ItemLine(item);
    PrintedStep(items, item);
    TextOfThree(lines, gap, line);
    AddedText(item, lines != []);
  }

  /** The same in letters. */
  lemma {:induction false} AppendedText(item: Item, printed: bool)
    ensures item.name == "" ==> Appended(item, printed) == ""
    ensures item.name != "" && item.Header? ==>
              Appended(item, printed) == (if printed then "\n[" else "[") + item.name + "]\n"
    ensures item.name != "" && item.Setting? ==> Appended(item, printed) == item.name + (" = " + (item.value + "\n"))
  {
    if item.name != "" && item.Setting? {
      var text := item.name + " = " + item.value + "\n";
      assert text == item.name + (" = " + (item.value + "\n"));
      assert item.value == "" ==> text == item.name + " = \n";
    }
  }

  lemma {:induction false} TextOfThree(a: seq<string>, b: seq<string>, c: seq<string>)
    ensures Text(a + b + c) == Text(a) + (Text(b) + Text(c))
  {
    TextOfSum(a, b);
    TextOfSum(a + b, c);
  }

  lemma {:induction false} AddedText(item: Item, printed: bool)
    ensures Text(Gap(item, printed)) + Text(ItemLine(item)) == Appended(item, printed)
  {
    TextOfOne("");
    if item.name != "" {
      var line := ItemLine(item)[0];
      TextOfOne(line);
      assert line + "\n" == Appended(item, false);
      if item.Header? && printed {
        assert "\n" + Appended(item, false) == Appended(item, true);
      }
    }
  }

  lemma {:induction false} NextSection(sections: Sections, i: nat)
    requires i < |sections|
    ensures Items(sections[..i + 1]) ==
            Items(sections[..i]) + [Header(sections[i].name)] + SectionItems(sections[i])[1..]
  {
    assert sections[..i + 1][..i] == sections[..i];
  }

  lemma {:induction false} TextOfOne(line: string)
    ensures Text([line]) == line + "\n" && Text([]) == ""
  {
    assert [line][1..] == [];
  }
}
