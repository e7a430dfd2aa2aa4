/** The configuration file reader used for test files. A file is read line by
    line: `[name]` starts a section, `key = value` stores a property in the
    current section, blank lines are skipped, and any other line is skipped
    with a warning. Properties before the first section header belong to the
    section "__GLOBAL". A section header or a key seen twice (the key within
    one section) aborts the load. Lines are matched as whole lines against
    three ECMAScript regular expressions, whose `\s` is the C locale's
    isspace. */
module ConfigFile {
  import opened Faults

  // ---------------------------------------------------------------------
  // Character classes
  // ---------------------------------------------------------------------

  /** `\s`: space, tab, newline, vertical tab, form feed, carriage return */
  predicate IsSpace(c: char)
  {
    c == ' ' || c == '\t' || c == '\n' || c == '\U{000B}' || c == '\U{000C}' || c == '\r'
  }

  predicate IsAlpha(c: char)
  {
    ('a' <= c <= 'z') || ('A' <= c <= 'Z')
  }

  predicate IsAlnum(c: char)
  {
    IsAlpha(c) || ('0' <= c <= '9')
  }

  predicate AllSpace(s: string)
  {
    forall i :: 0 <= i < |s| ==> IsSpace(s[i])
  }

  predicate NoSpace(s: string)
  {
    forall i :: 0 <= i < |s| ==> !IsSpace(s[i])
  }

  /** The length of the longest run of s[from..] whose characters satisfy
      the class; cls selects `\s` (0), `\S` (1) or `[a-zA-Z0-9]` (2) */
  function Run(s: string, from: nat, cls: nat): (n: nat)
    requires from <= |s|
    ensures from + n <= |s|
    ensures forall i :: from <= i < from + n ==> InClass(s[i], cls)
    ensures from + n < |s| ==> !InClass(s[from + n], cls)
    decreases |s| - from
  {
    if from == |s| || !InClass(s[from], cls) then 0 else 1 + Run(s, from + 1, cls)
  }

  predicate InClass(c: char, cls: nat)
  {
    if cls == 0 then IsSpace(c) else if cls == 1 then !IsSpace(c) else IsAlnum(c)
  }

  /** A run of class characters ends exactly where the class stops holding */
  lemma {:induction false} RunOfPrefix(s: string, from: nat, cls: nat, k: nat)
    requires from + k <= |s|
    requires forall i :: from <= i < from + k ==> InClass(s[i], cls)
    requires from + k == |s| || !InClass(s[from + k], cls)
    ensures Run(s, from, cls) == k
    decreases k
  {
    if k > 0 {
      RunOfPrefix(s, from + 1, cls, k - 1);
    }
  }

  // ---------------------------------------------------------------------
  // The section regex: \[([a-zA-Z0-9]+)\]\s*
  // ---------------------------------------------------------------------

  /** A section name: one or more letters and digits */
  predicate IsName(n: string)
  {
    |n| > 0 && forall i :: 0 <= i < |n| ==> IsAlnum(n[i])
  }

  /** The captured name when the whole line matches the section regex */
  function SectionName(line: string): Option<string>
  {
    if |line| == 0 || line[0] != '[' then None
    else
      var k := Run(line, 1, 2);
      if k == 0 || 1 + k == |line| || line[1 + k] != ']' || !AllSpace(line[k + 2..]) then None
      else Some(line[1..1 + k])
  }

  /** A line the section regex accepts is `[`, the captured name, `]` and
      trailing white space */
  lemma SectionNameSound(line: string)
    requires SectionName(line).Some?
    ensures var n := SectionName(line).value;
      IsName(n) && line == "[" + n + "]" + line[|n| + 2..] && AllSpace(line[|n| + 2..])
  {
    var n := SectionName(line).value;
    assert line == [line[0]] + line[1..1 + |n|] + [line[1 + |n|]] + line[|n| + 2..];
  }

  /** Every line of that shape matches, with that name */
  lemma SectionNameComplete(n: string, ws: string)
    requires IsName(n) && AllSpace(ws)
    ensures SectionName("[" + n + "]" + ws) == Some(n)
  {
    var line := "[" + n + "]" + ws;
    RunOfPrefix(line, 1, 2, |n|);
    assert line[1..1 + |n|] == n;
    assert line[|n| + 2..] == ws;
  }

  /** The global section's name is not a section name, so no header collides
      with it */
  lemma GlobalIsNoSectionName(line: string)
    requires SectionName(line).Some?
    ensures SectionName(line).value != GlobalSection
  {
    var n := SectionName(line).value;
    assert IsAlnum(n[0]);
  }

  // ---------------------------------------------------------------------
  // The property regex: ([a-zA-Z]\S*)\s*=\s*(\S+)
  // ---------------------------------------------------------------------

  /** What `\s*=\s*(\S+)` captures when it matches all of rest */
  function ValueOf(rest: string): Option<string>
  {
    var a := Run(rest, 0, 0);
    if a == |rest| || rest[a] != '=' then None
    else
      var b := a + 1 + Run(rest, a + 1, 0);
      if b == |rest| || !NoSpace(rest[b..]) then None
      else Some(rest[b..])
  }

  /** A matched rest is white space, `=`, white space and the value, which is
      non-empty and free of white space */
  lemma ValueOfSound(rest: string) returns (ws1: string, ws2: string)
    requires ValueOf(rest).Some?
    ensures var v := ValueOf(rest).value;
      rest == ws1 + "=" + ws2 + v && AllSpace(ws1) && AllSpace(ws2) && |v| > 0 && NoSpace(v)
  {
    var a := Run(rest, 0, 0);
    var b := a + 1 + Run(rest, a + 1, 0);
    ws1, ws2 := rest[..a], rest[a + 1..b];
    assert rest == rest[..a] + [rest[a]] + rest[a + 1..b] + rest[b..];
  }

  /** Every rest of that shape matches, with that value */
  lemma ValueOfComplete(ws1: string, ws2: string, v: string)
    requires AllSpace(ws1) && AllSpace(ws2) && |v| > 0 && NoSpace(v)
    ensures ValueOf(ws1 + "=" + ws2 + v) == Some(v)
  {
    var rest := ws1 + "=" + ws2 + v;
    RunOfPrefix(rest, 0, 0, |ws1|);
    RunOfPrefix(rest, |ws1| + 1, 0, |ws2|);
    assert rest[|ws1| + 1 + |ws2|..] == v;
  }

  /** A key: a letter, then anything but white space */
  predicate IsKey(k: string)
  {
    |k| > 0 && IsAlpha(k[0]) && NoSpace(k)
  }

  /** The greedy `\S*` tries the longest key first and gives back one
      character at a time until the rest of the line matches */
  function KeyFrom(line: string, k: nat): (r: Option<(string, string)>)
    requires k <= |line|
    ensures r.Some? ==> |r.value.0| <= k
  {
    if k == 0 then None
    else match ValueOf(line[k..])
      case Some(v) => Some((line[..k], v))
      case None => KeyFrom(line, k - 1)
  }

  /** The captured key and value when the whole line matches the property regex */
  function KeyValue(line: string): Option<(string, string)>
  {
    if |line| == 0 || !IsAlpha(line[0]) then None
    else KeyFrom(line, Run(line, 0, 1))
  }

  /** The key the search settles on is a non-empty prefix of the line
      after which the rest matches the value pattern */
  lemma {:induction false} KeyFromSound(line: string, k: nat)
    requires k <= |line| && KeyFrom(line, k).Some?
    ensures var (key, v) := KeyFrom(line, k).value;
      0 < |key| && line[..|key|] == key && ValueOf(line[|key|..]) == Some(v)
    decreases k
  {
    if ValueOf(line[k..]).Some? {
      assert KeyFrom(line, k) == Some((line[..k], ValueOf(line[k..]).value));
    } else {
      assert KeyFrom(line, k) == KeyFrom(line, k - 1);
      KeyFromSound(line, k - 1);
    }
  }

  /** The search is greedy: after no longer prefix up to k does the rest match */
  lemma {:induction false} KeyFromGreedy(line: string, k: nat)
    requires k <= |line| && KeyFrom(line, k).Some?
    ensures forall j :: |KeyFrom(line, k).value.0| < j <= k ==> ValueOf(line[j..]).None?
    decreases k
  {
    if ValueOf(line[k..]).None? {
      assert KeyFrom(line, k) == KeyFrom(line, k - 1);
      KeyFromGreedy(line, k - 1);
      forall j | |KeyFrom(line, k).value.0| < j <= k
        ensures ValueOf(line[j..]).None?
      {
        if j == k {
          assert line[j..] == line[k..];
        }
      }
    }
  }

  /** A matched line is its key followed by a rest the value pattern
      matches */
  lemma KeyValueSound(line: string)
    requires KeyValue(line).Some?
    ensures var (key, v) := KeyValue(line).value;
      IsKey(key) && line == key + line[|key|..] && ValueOf(line[|key|..]) == Some(v)
  {
    var m := Run(line, 0, 1);
    KeyFromSound(line, m);
    var key := KeyValue(line).value.0;
    assert line == key + line[|key|..];
    assert NoSpace(key) by {
      forall i | 0 <= i < |key| ensures !IsSpace(key[i]) {
        assert key[i] == line[i] && InClass(line[i], 1);
      }
    }
  }

  /** The captured key is the longest white-space-free prefix after which
      the rest of the line matches */
  lemma KeyValueLongest(line: string)
    requires KeyValue(line).Some?
    ensures var key := KeyValue(line).value.0;
      forall j :: |key| < j <= |line| && NoSpace(line[..j]) ==> ValueOf(line[j..]).None?
  {
    var m := Run(line, 0, 1);
    KeyFromGreedy(line, m);
    var key := KeyValue(line).value.0;
    forall j | |key| < j <= |line| && NoSpace(line[..j])
      ensures ValueOf(line[j..]).None?
    {
      NoSpaceLongestRun(line, m, j);
    }
  }

  /** No white-space-free prefix is longer than the `\S` run it starts */
  lemma NoSpaceLongestRun(line: string, m: nat, j: nat)
    requires m == Run(line, 0, 1) && j <= |line| && NoSpace(line[..j])
    ensures j <= m
  {
  }

  lemma KeyFromComplete(line: string, k: nat, j: nat)
    requires 0 < j <= k <= |line| && ValueOf(line[j..]).Some?
    ensures KeyFrom(line, k).Some? && |KeyFrom(line, k).value.0| >= j
  {
    assert KeyFrom(line, j) == Some((line[..j], ValueOf(line[j..]).value));
    KeyFromReaches(line, j, k);
  }

  /** Once the search from j finds a key of length j, the search from any
      later position finds one at least as long */
  lemma {:induction false} KeyFromReaches(line: string, j: nat, k: nat)
    requires 0 < j <= k <= |line|
    requires KeyFrom(line, j).Some? && |KeyFrom(line, j).value.0| == j
    ensures KeyFrom(line, k).Some? && |KeyFrom(line, k).value.0| >= j
    decreases k
  {
    if k > j {
      KeyFromReaches(line, j, k - 1);
      KeyFromStep(line, k);
    }
  }

  /** One step of the search: it either stops with the prefix up to k or
      goes on from k - 1 */
  lemma KeyFromStep(line: string, k: nat)
    requires 0 < k <= |line|
    ensures KeyFrom(line, k) == KeyFrom(line, k - 1)
         || (KeyFrom(line, k).Some? && KeyFrom(line, k).value.0 == line[..k])
  {
  }

  /** Every key followed by a matching rest is accepted, with a key at
      least that long */
  lemma KeyValueComplete(key: string, rest: string)
    requires IsKey(key) && ValueOf(rest).Some?
    ensures KeyValue(key + rest).Some? && |KeyValue(key + rest).value.0| >= |key|
  {
    var line := key + rest;
    assert line[|key|..] == rest;
    var m := Run(line, 0, 1);
    assert |key| <= m by {
      if m < |key| {
        assert false;
      }
    }
    KeyFromComplete(line, m, |key|);
  }

  // ---------------------------------------------------------------------
  // The state and the parse
  // ---------------------------------------------------------------------

  /** The section every property before the first header belongs to */
  const GlobalSection: string := "__GLOBAL"

  /** A property's (section, key) name */
  type PropertyName = (string, string)

  /** std::string's operator<: lexicographic by character */
  predicate StrLess(a: string, b: string)
  {
    if |a| == 0 then |b| > 0
    else if |b| == 0 then false
    else a[0] < b[0] || (a[0] == b[0] && StrLess(a[1..], b[1..]))
  }

  /** std::pair's operator<: by section, then by key */
  predicate NameLess(p: PropertyName, q: PropertyName)
  {
    StrLess(p.0, q.0) || (p.0 == q.0 && StrLess(p.1, q.1))
  }

  lemma {:induction false} StrLessIrreflexive(a: string)
    ensures !StrLess(a, a)
    decreases |a|
  {
    if |a| > 0 {
      StrLessIrreflexive(a[1..]);
    }
  }

  lemma {:induction false} StrLessTransitive(a: string, b: string, c: string)
    requires StrLess(a, b) && StrLess(b, c)
    ensures StrLess(a, c)
    decreases |a|
  {
    if |a| > 0 && a[0] == b[0] && b[0] == c[0] {
      StrLessTransitive(a[1..], b[1..], c[1..]);
    }
  }

  lemma {:induction false} StrLessTotal(a: string, b: string)
    ensures a == b || StrLess(a, b) || StrLess(b, a)
    decreases |a|
  {
    if |a| > 0 && |b| > 0 && a[0] == b[0] {
      StrLessTotal(a[1..], b[1..]);
      if a[1..] == b[1..] {
        assert a == [a[0]] + a[1..] && b == [b[0]] + b[1..];
      }
    }
  }

  lemma NameLessTransitive(p: PropertyName, q: PropertyName, r: PropertyName)
    requires NameLess(p, q) && NameLess(q, r)
    ensures NameLess(p, r)
  {
    if StrLess(p.0, q.0) && StrLess(q.0, r.0) {
      StrLessTransitive(p.0, q.0, r.0);
    } else if p.0 == q.0 && q.0 == r.0 {
      StrLessTransitive(p.1, q.1, r.1);
    }
  }

  lemma NameLessTotal(p: PropertyName, q: PropertyName)
    ensures p == q || NameLess(p, q) || NameLess(q, p)
  {
    StrLessTotal(p.0, q.0);
    StrLessTotal(p.1, q.1);
  }

  lemma NameLessIrreflexive(p: PropertyName)
    ensures !NameLess(p, p)
  {
    StrLessIrreflexive(p.0);
    StrLessIrreflexive(p.1);
  }

  /** The property map's entries, as std::map keeps them: in strictly
      ascending name order */
  predicate Ordered(es: seq<(PropertyName, string)>)
  {
    forall i, j :: 0 <= i < j < |es| ==> NameLess(es[i].0, es[j].0)
  }

  /** map::find */
  function Lookup(es: seq<(PropertyName, string)>, name: PropertyName): Option<string>
  {
    if es == [] then None
    else if es[0].0 == name then Some(es[0].1)
    else Lookup(es[1..], name)
  }

  /** map::emplace: the entry goes in at its place in the order, unless its
      name is present, in which case the map is unchanged */
  function Insert(es: seq<(PropertyName, string)>, name: PropertyName, value: string): seq<(PropertyName, string)>
  {
    if es == [] then [(name, value)]
    else if es[0].0 == name then es
    else if NameLess(name, es[0].0) then [(name, value)] + es
    else [es[0]] + Insert(es[1..], name, value)
  }

  /** Ordered entries have each name at most once: the entry at i is the one
      lookup finds */
  lemma {:induction false} LookupOrdered(es: seq<(PropertyName, string)>, i: nat)
    requires Ordered(es) && i < |es|
    ensures Lookup(es, es[i].0) == Some(es[i].1)
    decreases i
  {
    if i > 0 {
      NameLessIrreflexive(es[i].0);
      assert NameLess(es[0].0, es[i].0);
      LookupOrdered(es[1..], i - 1);
    }
  }

  lemma {:induction false} LookupSome(es: seq<(PropertyName, string)>, name: PropertyName)
    requires Lookup(es, name).Some?
    ensures exists i :: 0 <= i < |es| && es[i] == (name, Lookup(es, name).value)
    decreases |es|
  {
    if es[0].0 != name {
      LookupSome(es[1..], name);
      var i :| 0 <= i < |es| - 1 && es[1..][i] == (name, Lookup(es, name).value);
      assert es[i + 1] == es[1..][i];
    }
  }

  /** Inserting keeps the entries ordered, and lookups see the new entry only
      when its name was absent: emplace never overwrites */
  lemma {:induction false} InsertProperties(es: seq<(PropertyName, string)>, name: PropertyName, value: string)
    requires Ordered(es)
    ensures Ordered(Insert(es, name, value))
    ensures forall m :: (Lookup(Insert(es, name, value), m) ==
      if m == name && Lookup(es, name).None? then Some(value) else Lookup(es, m))
    decreases |es|
  {
    if es != [] && es[0].0 != name && !NameLess(name, es[0].0) {
      NameLessTotal(name, es[0].0);
      InsertProperties(es[1..], name, value);
      var tail := Insert(es[1..], name, value);
      forall i, j | 0 <= i < j < |[es[0]] + tail|
        ensures NameLess(([es[0]] + tail)[i].0, ([es[0]] + tail)[j].0)
      {
        if i == 0 {
          var e := tail[j - 1];
          if e.0 != name {
            LookupOrdered(tail, j - 1);
            LookupSome(tail, e.0);
            assert Lookup(es[1..], e.0).Some?;
            LookupSome(es[1..], e.0);
            var k :| 0 <= k < |es[1..]| && es[1..][k] == (e.0, Lookup(es[1..], e.0).value);
            assert es[k + 1].0 == e.0;
          }
        }
      }
    } else if es != [] && es[0].0 != name {
      forall i, j | 0 <= i < j < |[(name, value)] + es|
        ensures NameLess(([(name, value)] + es)[i].0, ([(name, value)] + es)[j].0)
      {
        if i == 0 && j > 1 {
          NameLessTransitive(name, es[0].0, es[j - 1].0);
        }
      }
      forall m ensures Lookup(Insert(es, name, value), m) ==
        if m == name && Lookup(es, name).None? then Some(value) else Lookup(es, m)
      {
        if m == name {
          LookupAbsent(es, name);
        }
      }
    }
  }

  /** A name below the first entry's is absent */
  lemma LookupAbsent(es: seq<(PropertyName, string)>, name: PropertyName)
    requires Ordered(es) && es != [] && NameLess(name, es[0].0)
    ensures Lookup(es, name).None?
  {
    if Lookup(es, name).Some? {
      LookupSome(es, name);
      var i :| 0 <= i < |es| && es[i] == (name, Lookup(es, name).value);
      if i > 0 {
        NameLessTransitive(name, es[0].0, es[i].0);
      }
      NameLessIrreflexive(name);
    }
  }

  /** How a load ends early: the line (counted from 1) and the name involved */
  datatype LoadError =
    | DuplicateSection(lineNumber: nat, section: string)
    | DuplicateProperty(lineNumber: nat, key: string)

  /** The sections so far, the properties so far, and the current section */
  datatype ParseState = ParseState(sections: seq<string>, entries: seq<(PropertyName, string)>, current: string)

  /** After `clear`, the global section is added and made current */
  const Initial: ParseState := ParseState([GlobalSection], [], GlobalSection)

  /** One line of `load`: a header for a new section makes it current, a
      property new to the current section is stored, a repeated one of either
      ends the load, and any other line leaves the state as it is */
  function LineStep(st: ParseState, line: string, lineNumber: nat): (ParseState, Option<LoadError>)
  {
    match SectionName(line)
    case Some(n) =>
      if n in st.sections then (st, Some(DuplicateSection(lineNumber, n)))
      else (st.(sections := st.sections + [n], current := n), None)
    case None =>
      match KeyValue(line)
      case Some(kv) =>
        if Lookup(st.entries, (st.current, kv.0)).Some? then (st, Some(DuplicateProperty(lineNumber, kv.0)))
        else (st.(entries := Insert(st.entries, (st.current, kv.0), kv.1)), None)
      case None => (st, None)
  }

  /** `load` over the file's lines: the state after the last line, or the
      state when the first error was raised, with that error */
  function Parse(lines: seq<string>): (ParseState, Option<LoadError>)
    decreases |lines|
  {
    if lines == [] then (Initial, None)
    else
      var prev := Parse(lines[..|lines| - 1]);
      if prev.1.Some? then prev else LineStep(prev.0, lines[|lines| - 1], |lines|)
  }

  /** What every state of a load satisfies: the global section comes first,
      sections are distinct, the current section is the last one, properties
      are ordered and each belongs to a listed section */
  predicate Consistent(st: ParseState)
  {
    && |st.sections| > 0 && st.sections[0] == GlobalSection
    && (forall i, j :: 0 <= i < j < |st.sections| ==> st.sections[i] != st.sections[j])
    && st.current == st.sections[|st.sections| - 1]
    && Ordered(st.entries)
    && (forall i :: 0 <= i < |st.entries| ==> st.entries[i].0.0 in st.sections)
  }

  lemma LineStepConsistent(st: ParseState, line: string, lineNumber: nat)
    requires Consistent(st)
    ensures Consistent(LineStep(st, line, lineNumber).0)
  {
    var next := LineStep(st, line, lineNumber).0;
    if SectionName(line).None? && KeyValue(line).Some? {
      var (k, v) := KeyValue(line).value;
      if Lookup(st.entries, (st.current, k)).None? {
        InsertProperties(st.entries, (st.current, k), v);
        forall i | 0 <= i < |next.entries|
          ensures next.entries[i].0.0 in next.sections
        {
          var e := next.entries[i];
          LookupOrdered(next.entries, i);
          if e.0 != (st.current, k) {
            LookupSome(st.entries, e.0);
          }
        }
      }
    }
  }

  /** Every state a load passes through is consistent */
  lemma {:induction false} ParseConsistent(lines: seq<string>)
    ensures Consistent(Parse(lines).0)
    decreases |lines|
  {
    if lines != [] {
      ParseConsistent(lines[..|lines| - 1]);
      var prev := Parse(lines[..|lines| - 1]);
      if prev.1.None? {
        LineStepConsistent(prev.0, lines[|lines| - 1], |lines|);
      }
    }
  }

  /** The header names of the lines, in order */
  function Headers(lines: seq<string>): seq<string>
  {
    if lines == [] then []
    else Headers(lines[..|lines| - 1]) + match SectionName(lines[|lines| - 1]) case Some(n) => [n] case None => []
  }

  /** A load that succeeds has the global section followed by one section
      per header line, in file order */
  lemma {:induction false} SectionsAreHeaders(lines: seq<string>)
    requires Parse(lines).1.None?
    ensures Parse(lines).0.sections == [GlobalSection] + Headers(lines)
    decreases |lines|
  {
    if lines != [] {
      SectionsAreHeaders(lines[..|lines| - 1]);
    }
  }

  /** Once raised, an error ends the load: later lines change nothing */
  lemma {:induction false} ErrorPersists(lines: seq<string>, k: nat)
    requires k <= |lines| && Parse(lines[..k]).1.Some?
    ensures Parse(lines) == Parse(lines[..k])
    decreases |lines| - k
  {
    if k < |lines| {
      assert lines[..k + 1][..k] == lines[..k];
      ErrorPersists(lines, k + 1);
    } else {
      assert lines[..k] == lines;
    }
  }

  /** The load of one more line is one more step, unless it had already
      failed */
  lemma ParseSnoc(lines: seq<string>, k: nat)
    requires k < |lines|
    ensures Parse(lines[..k + 1]) ==
      if Parse(lines[..k]).1.Some? then Parse(lines[..k]) else LineStep(Parse(lines[..k]).0, lines[k], k + 1)
  {
    assert lines[..k + 1][..k] == lines[..k];
  }

  /** A header line whose section was already declared ends the load with
      an error */
  lemma RepeatedHeaderFails(lines: seq<string>, i: nat, j: nat)
    requires i < j < |lines| && SectionName(lines[i]).Some? && SectionName(lines[i]) == SectionName(lines[j])
    ensures Parse(lines).1.Some?
  {
    var n := SectionName(lines[i]).value;
    ParseSnoc(lines, j);
    if Parse(lines[..j]).1.None? {
      assert lines[..j][i] == lines[i];
      HeaderListed(lines[..j], i);
      DuplicateHeaderStep(Parse(lines[..j]).0, lines[j], j + 1);
    }
    ErrorPersists(lines, j + 1);
  }

  /** A header naming a listed section ends the load with that section */
  lemma DuplicateHeaderStep(st: ParseState, line: string, lineNumber: nat)
    requires SectionName(line).Some? && SectionName(line).value in st.sections
    ensures LineStep(st, line, lineNumber).1 == Some(DuplicateSection(lineNumber, SectionName(line).value))
  {
  }

  lemma HeaderListed(lines: seq<string>, i: nat)
    requires i < |lines| && SectionName(lines[i]).Some? && Parse(lines).1.None?
    ensures SectionName(lines[i]).value in Parse(lines).0.sections
  {
    SectionsAreHeaders(lines);
    HeaderInHeaders(lines, i);
  }

  lemma {:induction false} HeaderInHeaders(lines: seq<string>, i: nat)
    requires i < |lines| && SectionName(lines[i]).Some?
    ensures SectionName(lines[i]).value in Headers(lines)
    decreases |lines|
  {
    if i < |lines| - 1 {
      HeaderInHeaders(lines[..|lines| - 1], i);
    }
  }

  /** A property line stores its value under the current section, the one of
      the latest header, unless the key is already there */
  lemma PropertyStoredInCurrent(lines: seq<string>, key: string, value: string)
    requires lines != [] && Parse(lines[..|lines| - 1]).1.None?
    requires SectionName(lines[|lines| - 1]).None? && KeyValue(lines[|lines| - 1]) == Some((key, value))
    ensures var st := Parse(lines[..|lines| - 1]).0;
      Lookup(st.entries, (st.current, key)).None? ==>
        Parse(lines).1.None? && Lookup(Parse(lines).0.entries, (st.current, key)) == Some(value)
  {
    var st := Parse(lines[..|lines| - 1]).0;
    ParseConsistent(lines[..|lines| - 1]);
    InsertProperties(st.entries, (st.current, key), value);
  }

  /** A one-letter key, `=` and a one-character value */
  lemma ShortProperty(k: char, v: char)
    requires IsAlpha(k) && !IsSpace(v)
    ensures KeyValue([k, '=', v]) == Some(([k], [v]))
  {
    var line := [k, '=', v];
    RunOfPrefix(line, 0, 1, 3);
    assert line[3..] == [] && ValueOf([]).None?;
    assert line[2..] == [v];
    assert Run([v], 0, 0) == 0 && Run([v], 1, 0) == 0;
    assert ValueOf([v]).None?;
    ValueOfComplete("", "", [v]);
    assert line[1..] == "" + "=" + "" + [v];
    assert line[..1] == [k];
    assert KeyFrom(line, 1) == Some(([k], [v]));
    assert KeyFrom(line, 2) == KeyFrom(line, 1);
    assert KeyFrom(line, 3) == KeyFrom(line, 2);
  }

  /** The same key may appear once in each section */
  lemma SameKeyInTwoSections()
    ensures Parse(["a=1", "[s]", "a=2"]) ==
      (ParseState([GlobalSection, "s"], [((GlobalSection, "a"), "1"), (("s", "a"), "2")], "s"), None)
  {
    var lines := ["a=1", "[s]", "a=2"];
    var st1 := ParseState([GlobalSection], [((GlobalSection, "a"), "1")], GlobalSection);
    var st2 := ParseState([GlobalSection, "s"], [((GlobalSection, "a"), "1")], "s");
    var st3 := ParseState([GlobalSection, "s"], [((GlobalSection, "a"), "1"), (("s", "a"), "2")], "s");
    assert lines[..0] == [];
    ParseSnoc(lines, 0);
    FirstStep();
    assert Parse(lines[..1]) == (st1, None);
    ParseSnoc(lines, 1);
    SecondStep(st1);
    assert Parse(lines[..2]) == (st2, None);
    ParseSnoc(lines, 2);
    ThirdStep(st2);
    assert lines[..3] == lines;
  }

  lemma FirstStep()
    ensures LineStep(Initial, "a=1", 1) ==
      (ParseState([GlobalSection], [((GlobalSection, "a"), "1")], GlobalSection), None)
  {
    ShortProperty('a', '1');
  }

  lemma SecondStep(st: ParseState)
    requires st == ParseState([GlobalSection], [((GlobalSection, "a"), "1")], GlobalSection)
    ensures LineStep(st, "[s]", 2) == (st.(sections := [GlobalSection, "s"], current := "s"), None)
  {
    SectionNameComplete("s", "");
    assert "[" + "s" + "]" + "" == "[s]";
    assert SectionName("[s]") == Some("s");
    assert "s" != GlobalSection && "s" !in st.sections;
    assert st.sections + ["s"] == [GlobalSection, "s"];
  }

  lemma ThirdStep(st: ParseState)
    requires st == ParseState([GlobalSection, "s"], [((GlobalSection, "a"), "1")], "s")
    ensures LineStep(st, "a=2", 3) ==
      (st.(entries := [((GlobalSection, "a"), "1"), (("s", "a"), "2")]), None)
  {
    ShortProperty('a', '2');
    var e0 := ((GlobalSection, "a"), "1");
    assert SectionName("a=2").None?;
    assert Lookup(st.entries, ("s", "a")).None? by {
      assert GlobalSection != "s";
      assert [e0][1..] == [];
    }
    assert Insert([e0], ("s", "a"), "2") == [e0, (("s", "a"), "2")] by {
      assert !StrLess("s", GlobalSection);
      assert [e0][1..] == [];
    }
  }

  /** A line that is neither a header nor a property changes nothing */
  lemma OtherLinesSkipped(st: ParseState, line: string, lineNumber: nat)
    requires SectionName(line).None? && KeyValue(line).None?
    ensures LineStep(st, line, lineNumber) == (st, None)
  {
  }

  // ---------------------------------------------------------------------
  // The reader
  // ---------------------------------------------------------------------

  /** Entries with the given section, as (key, value) pairs, in order */
  function Select(es: seq<(PropertyName, string)>, section: string): seq<(string, string)>
  {
    if es == [] then []
    else
      var last := es[|es| - 1];
      Select(es[..|es| - 1], section) + if last.0.0 == section then [(last.0.1, last.1)] else []
  }

  lemma {:induction false} SelectMembers(es: seq<(PropertyName, string)>, section: string)
    ensures forall k, v :: (k, v) in Select(es, section) <==> ((section, k), v) in es
    decreases |es|
  {
    if es != [] {
      SelectMembers(es[..|es| - 1], section);
      assert es == es[..|es| - 1] + [es[|es| - 1]];
    }
  }

  lemma {:induction false} SelectAscending(es: seq<(PropertyName, string)>, section: string)
    requires Ordered(es)
    ensures forall i, j :: 0 <= i < j < |Select(es, section)| ==> StrLess(Select(es, section)[i].0, Select(es, section)[j].0)
    decreases |es|
  {
    if es != [] {
      var init := es[..|es| - 1];
      var last := es[|es| - 1];
      SelectAscending(init, section);
      SelectMembers(init, section);
      var s := Select(es, section);
      forall i, j | 0 <= i < j < |s|
        ensures StrLess(s[i].0, s[j].0)
      {
        if j == |Select(init, section)| {
          assert s[i] in Select(init, section);
          var k :| 0 <= k < |init| && init[k] == ((section, s[i].0), s[i].1);
          assert NameLess(es[k].0, last.0);
          NameLessIrreflexive((section, s[i].0));
        }
      }
    }
  }

  class ConfigFile {
    /** The section names, in the order declared */
    var sections: seq<string>
    /** The properties, in the order of their names */
    var entries: seq<(PropertyName, string)>

    ghost predicate Valid()
      reads this
    {
      Ordered(entries)
    }

    /** A reader with nothing loaded yet */
    constructor ()
      ensures Valid() && sections == [] && entries == []
    {
      sections := [];
      entries := [];
    }

    /** `clear` */
    method Clear()
      modifies this
      ensures Valid() && sections == [] && entries == []
    {
      sections := [];
      entries := [];
    }

    /** `addSection`: appends to the section list */
    method AddSection(sectionName: string)
      modifies this
      ensures sections == old(sections) + [sectionName] && entries == old(entries)
    {
      sections := sections + [sectionName];
    }

    /** `addProperty`: map::emplace of the name and value */
    method AddProperty(propertyName: PropertyName, value: string)
      requires Valid()
      modifies this
      ensures Valid() && sections == old(sections)
      ensures entries == Insert(old(entries), propertyName, value)
      ensures forall m :: (Lookup(entries, m) ==
        if m == propertyName && Lookup(old(entries), propertyName).None? then Some(value) else Lookup(old(entries), m))
    {
      InsertProperties(entries, propertyName, value);
      entries := Insert(entries, propertyName, value);
    }

    /** `hasSection`: a linear search of the section list */
    method HasSection(sectionName: string) returns (found: bool)
      ensures found <==> sectionName in sections
    {
      var i := 0;
      while i < |sections|
        invariant 0 <= i <= |sections|
        invariant sectionName !in sections[..i]
      {
        if sections[i] == sectionName {
          return true;
        }
        assert sections[..i + 1] == sections[..i] + [sections[i]];
        i := i + 1;
      }
      assert sections[..i] == sections;
      return false;
    }

    /** `getSections`: the section list, in the order declared */
    method GetSections() returns (result: seq<string>)
      ensures result == sections
    {
      result := sections;
    }

    /** `hasProperty`: map::find of the (section, key) name */
    method HasProperty(sectionName: string, keyName: string) returns (found: bool)
      ensures found <==> Lookup(entries, (sectionName, keyName)).Some?
    {
      var i := 0;
      while i < |entries|
        invariant 0 <= i <= |entries|
        invariant Lookup(entries, (sectionName, keyName)) == Lookup(entries[i..], (sectionName, keyName))
      {
        if entries[i].0 == (sectionName, keyName) {
          return true;
        }
        assert entries[i..][1..] == entries[i + 1..];
        i := i + 1;
      }
      return false;
    }

    /** `getProperties`: the (key, value) pairs of one section, in ascending
        key order, as a walk over the whole map in order yields them */
    method GetProperties(sectionName: string) returns (result: seq<(string, string)>)
      requires Valid()
      ensures forall k, v :: (k, v) in result <==> Lookup(entries, (sectionName, k)) == Some(v)
      ensures forall i, j :: 0 <= i < j < |result| ==> StrLess(result[i].0, result[j].0)
    {
      result := [];
      var i := 0;
      while i < |entries|
        invariant 0 <= i <= |entries|
        invariant result == Select(entries[..i], sectionName)
      {
        assert entries[..i + 1][..i] == entries[..i];
        if entries[i].0.0 == sectionName {
          result := result + [(entries[i].0.1, entries[i].1)];
        }
        i := i + 1;
      }
      assert entries[..i] == entries;
      SelectMembers(entries, sectionName);
      SelectAscending(entries, sectionName);
      forall k, v
        ensures ((sectionName, k), v) in entries <==> Lookup(entries, (sectionName, k)) == Some(v)
      {
        if ((sectionName, k), v) in entries {
          var n :| 0 <= n < |entries| && entries[n] == ((sectionName, k), v);
          LookupOrdered(entries, n);
        }
        if Lookup(entries, (sectionName, k)) == Some(v) {
          LookupSome(entries, (sectionName, k));
        }
      }
    }

    /** `load` over the file's lines: clears the reader, starts in the global
        section and processes the lines in order until one raises an error */
    method Load(lines: seq<string>) returns (error: Option<LoadError>)
      modifies this
      ensures Valid()
      ensures (ParseState(sections, entries, Parse(lines).0.current), error) == Parse(lines)
    {
      Clear();
      var currentSection := GlobalSection;
      AddSection(currentSection);
      assert lines[..0] == [];
      assert Parse([]) == (Initial, None);
      assert sections == [GlobalSection];

      var lineNumber := 0;
      while lineNumber < |lines|
        invariant 0 <= lineNumber <= |lines| && Valid()
        invariant Parse(lines[..lineNumber]) == (ParseState(sections, entries, currentSection), None)
      {
        var line := lines[lineNumber];
        ParseSnoc(lines, lineNumber);
        ParseConsistent(lines[..lineNumber]);
        lineNumber := lineNumber + 1;

        var header := SectionName(line);
        if header.Some? {
          var duplicate := HasSection(header.value);
          if duplicate {
            ErrorPersists(lines, lineNumber);
            return Some(DuplicateSection(lineNumber, header.value));
          }
          currentSection := header.value;
          AddSection(header.value);
        } else {
          var property := KeyValue(line);
          if property.Some? {
            var duplicate := HasProperty(currentSection, property.value.0);
            if duplicate {
              ErrorPersists(lines, lineNumber);
              return Some(DuplicateProperty(lineNumber, property.value.0));
            }
            AddProperty((currentSection, property.value.0), property.value.1);
          }
        }
      }
      assert lines[..lineNumber] == lines;
      return None;
    }
  }
}
