// Log collection: the bounded filter over a container's lines, and the
// deduplication of the collected entries into findings. A char stands for a byte.

module Logs {
  import opened Basics
  import opened Checks
  import opened Findings
  import opened Dedup

  const MAX_ERR_LINES_PER_CONTAINER := 50
  const KEY_LINE_BYTES := 80
  const ERROR_REF := "log-collector/error"

  datatype PodLogEntry = PodLogEntry(ns: string, podName: string, containerName: string, line: string)

  type Pattern = string -> bool

  // ---------- cleaning a line ----------

  predicate IsSpace(c: char) {
    c == ' ' || 9 <= c as int <= 13
  }

  function TrimLeft(s: string): string {
    if s != [] && IsSpace(s[0]) then TrimLeft(s[1..]) else s
  }

  function TrimRight(s: string): string {
    if s != [] && IsSpace(s[|s| - 1]) then TrimRight(s[..|s| - 1]) else s
  }

  function TrimSpace(s: string): string {
    TrimRight(TrimLeft(s))
  }

  ghost const WHITE := {' ', '\t', '\n', '\r', 11 as char, 12 as char}

  ghost predicate AllWhite(s: string) {
    forall c :: c in s ==> c in WHITE
  }

  lemma SpacesAreWhite(c: char)
    ensures IsSpace(c) <==> c in WHITE
  {
    assert c as int == 11 <==> c == 11 as char;
    assert c as int == 12 <==> c == 12 as char;
  }

  lemma {:induction false} TrimLeftSplits(s: string) returns (a: string)
    ensures s == a + TrimLeft(s) && AllWhite(a)
    ensures TrimLeft(s) != [] ==> TrimLeft(s)[0] !in WHITE
  {
    a := [];
    if s != [] {
      SpacesAreWhite(s[0]);
      if IsSpace(s[0]) {
        a := TrimLeftSplits(s[1..]);
        assert s == [s[0]] + s[1..];
        a := [s[0]] + a;
      }
    }
  }

  lemma {:induction false} TrimRightSplits(s: string) returns (b: string)
    ensures s == TrimRight(s) + b && AllWhite(b)
    ensures TrimRight(s) != [] ==> TrimRight(s)[|TrimRight(s)| - 1] !in WHITE
  {
    b := [];
    if s != [] {
      var k := |s| - 1;
      SpacesAreWhite(s[k]);
      if IsSpace(s[k]) {
        b := TrimRightSplits(s[..k]);
        assert s == s[..k] + [s[k]];
        b := b + [s[k]];
      }
    }
  }

  lemma Appended(a: string, x: string, b: string)
    ensures a + (x + b) == a + x + b
    ensures x != [] ==> (x + b)[0] == x[0]
  {
  }

  /** Trimming removes white space at both ends, all of it and nothing else. */
  lemma TrimSplits(s: string) returns (a: string, b: string)
    ensures s == a + TrimSpace(s) + b && AllWhite(a) && AllWhite(b)
    ensures TrimSpace(s) != [] ==> TrimSpace(s)[0] !in WHITE && TrimSpace(s)[|TrimSpace(s)| - 1] !in WHITE
  {
    var t := TrimLeft(s);
    a := TrimLeftSplits(s);
    b := TrimRightSplits(t);
    Appended(a, TrimRight(t), b);
  }

  // The index of the first occurrence of c, or -1.
  function IndexOf(s: string, c: char): (i: int)
    ensures -1 <= i < |s|
    ensures i == -1 <==> c !in s
    ensures i >= 0 ==> s[i] == c && c !in s[..i]
  {
    if s == [] then -1
    else if s[0] == c then 0
    else
      var i := IndexOf(s[1..], c);
      assert s == [s[0]] + s[1..];
      assert i >= 0 ==> s[..i + 1] == [s[0]] + s[1..][..i];
      if i < 0 then -1 else i + 1
  }

  function StripKubeTimestamp(line: string): string {
    if |line| > 30 && line[10] == 'T' then
      var idx := IndexOf(line, ' ');
      if idx > 0 then TrimSpace(line[idx + 1..]) else line
    else line
  }

  lemma {:induction false} TrimShortens(s: string)
    ensures |TrimSpace(s)| <= |s|
  {
    TrimLeftShortens(s);
    TrimRightShortens(TrimLeft(s));
  }

  lemma {:induction false} TrimLeftShortens(s: string)
    ensures |TrimLeft(s)| <= |s|
  {
    if s != [] { TrimLeftShortens(s[1..]); }
  }

  lemma {:induction false} TrimRightShortens(s: string)
    ensures |TrimRight(s)| <= |s|
  {
    if s != [] { TrimRightShortens(s[..|s| - 1]); }
  }

  lemma {:induction false} FirstDelimiter(prefix: string, c: char, rest: string)
    requires c !in prefix
    ensures IndexOf(prefix + [c] + rest, c) == |prefix|
  {
    var s := prefix + [c] + rest;
    if prefix != [] {
      assert s[0] == prefix[0] && s[1..] == prefix[1..] + [c] + rest;
      FirstDelimiter(prefix[1..], c, rest);
    }
  }

  /** A timestamped line is stripped back to its message, trimmed. */
  lemma StripRecoversMessage(stamp: string, message: string)
    requires |stamp| > 10 && stamp[10] == 'T' && ' ' !in stamp
    requires |stamp| + 1 + |message| > 30
    ensures StripKubeTimestamp(stamp + " " + message) == TrimSpace(message)
    ensures (message != [] ==> message[0] !in WHITE && message[|message| - 1] !in WHITE) ==>
      StripKubeTimestamp(stamp + " " + message) == message
  {
    if message != [] {
      SpacesAreWhite(message[0]);
      SpacesAreWhite(message[|message| - 1]);
    }
    FirstDelimiter(stamp, ' ', message);
    assert stamp + [' '] + message == stamp + " " + message;
    assert (stamp + " " + message)[|stamp| + 1..] == message;
  }

  /** Stripping leaves a line alone exactly when it does not look stamped: any longer line with a T in
      column 10 and a later space loses its first word, stamped or not. */
  lemma StripUnchangedIff(line: string)
    ensures StripKubeTimestamp(line) == line <==>
      !(|line| > 30 && line[10] == 'T' && line[0] != ' ' && ' ' in line)
  {
    var idx := IndexOf(line, ' ');
    if idx >= 0 {
      TrimShortens(line[idx + 1..]);
    }
  }

  // ---------- the bounded filter ----------

  ghost predicate Matches(line: string, patterns: seq<Pattern>) {
    exists i :: 0 <= i < |patterns| && patterns[i](line)
  }

  method MatchesAnyPattern(line: string, patterns: seq<Pattern>) returns (m: bool)
    ensures m <==> Matches(line, patterns)
  {
    for i := 0 to |patterns|
      invariant forall j :: 0 <= j < i ==> !patterns[j](line)
    {
      if patterns[i](line) {
        return true;
      }
    }
    return false;
  }

  // The custom patterns that compile.
  ghost function Compiled(texts: seq<string>, compile: string -> Option<Pattern>): seq<Pattern> {
    if texts == [] then []
    else
      var k := |texts| - 1;
      Compiled(texts[..k], compile) + AsPatterns(compile(texts[k]))
  }

  ghost function AsPatterns(p: Option<Pattern>): seq<Pattern> {
    if p.Some? then [p.value] else []
  }

  /** A line matches a compiled pattern exactly if some text compiles to one that matches it. */
  lemma {:induction false} CompiledMatches(line: string, texts: seq<string>, compile: string -> Option<Pattern>)
    ensures Matches(line, Compiled(texts, compile)) <==>
      exists i :: 0 <= i < |texts| && compile(texts[i]).Some? && compile(texts[i]).value(line)
  {
    if texts != [] {
      var k := |texts| - 1;
      CompiledMatches(line, texts[..k], compile);
      MatchesConcat(line, Compiled(texts[..k], compile), AsPatterns(compile(texts[k])));
      MatchesOptional(line, compile(texts[k]));
      assert forall i :: 0 <= i < k ==> texts[..k][i] == texts[i];
    }
  }

  lemma MatchesOptional(line: string, p: Option<Pattern>)
    ensures Matches(line, AsPatterns(p)) <==> p.Some? && p.value(line)
  {
    if p.Some? {
      assert AsPatterns(p)[0] == p.value;
    }
  }

  lemma MatchesConcat(line: string, a: seq<Pattern>, b: seq<Pattern>)
    ensures Matches(line, a + b) <==> Matches(line, a) || Matches(line, b)
  {
    if Matches(line, a) {
      var i :| 0 <= i < |a| && a[i](line);
      assert (a + b)[i](line);
    }
    if Matches(line, b) {
      var i :| 0 <= i < |b| && b[i](line);
      assert (a + b)[|a| + i](line);
    }
  }

  // The matching lines, in order.
  ghost function MatchingLines(lines: seq<string>, patterns: seq<Pattern>): seq<string> {
    if lines == [] then []
    else
      var k := |lines| - 1;
      MatchingLines(lines[..k], patterns) + if Matches(lines[k], patterns) then [lines[k]] else []
  }

  ghost function Take(s: seq<string>, n: nat): seq<string> {
    if |s| <= n then s else s[..n]
  }

  ghost function AsEntries(lines: seq<string>, ns: string, podName: string, containerName: string): seq<PodLogEntry> {
    seq(|lines|, i requires 0 <= i < |lines| => PodLogEntry(ns, podName, containerName, StripKubeTimestamp(lines[i])))
  }

  lemma {:induction false} MatchingPrefix(lines: seq<string>, patterns: seq<Pattern>, i: nat)
    requires i <= |lines|
    ensures MatchingLines(lines[..i], patterns) <= MatchingLines(lines, patterns)
    decreases |lines|
  {
    if i < |lines| {
      var k := |lines| - 1;
      assert lines[..k][..i] == lines[..i];
      MatchingPrefix(lines[..k], patterns, i);
    } else {
      assert lines[..i] == lines;
    }
  }

  // The indices of the matching lines.
  ghost function MatchingAt(lines: seq<string>, patterns: seq<Pattern>, n: nat): seq<nat>
    requires n <= |lines|
  {
    if n == 0 then []
    else MatchingAt(lines, patterns, n - 1) + if Matches(lines[n - 1], patterns) then [n - 1] else []
  }

  lemma {:induction false} MatchingAtExact(lines: seq<string>, patterns: seq<Pattern>, n: nat)
    requires n <= |lines|
    ensures forall i: nat :: i in MatchingAt(lines, patterns, n) <==> i < n && Matches(lines[i], patterns)
    ensures forall k, l :: 0 <= k < l < |MatchingAt(lines, patterns, n)| ==>
      MatchingAt(lines, patterns, n)[k] < MatchingAt(lines, patterns, n)[l]
  {
    if n > 0 {
      MatchingAtExact(lines, patterns, n - 1);
      var before := MatchingAt(lines, patterns, n - 1);
      forall k | 0 <= k < |before| ensures before[k] < n - 1 {
        assert before[k] in before;
      }
    }
  }

  lemma {:induction false} MatchingAtLines(lines: seq<string>, patterns: seq<Pattern>, n: nat)
    requires n <= |lines|
    ensures |MatchingAt(lines, patterns, n)| == |MatchingLines(lines[..n], patterns)|
    ensures forall k :: 0 <= k < |MatchingAt(lines, patterns, n)| ==>
      MatchingAt(lines, patterns, n)[k] < n
      && MatchingLines(lines[..n], patterns)[k] == lines[MatchingAt(lines, patterns, n)[k]]
  {
    if n > 0 {
      MatchingAtLines(lines, patterns, n - 1);
      assert lines[..n][..n - 1] == lines[..n - 1];
    }
  }

  // at lists matching lines in order, and all of them up to fifty.
  ghost predicate FirstMatching(lines: seq<string>, patterns: seq<Pattern>, at: seq<nat>) {
    && |at| <= 50
    && (forall k :: 0 <= k < |at| ==> at[k] < |lines| && Matches(lines[at[k]], patterns))
    && (forall k, l :: 0 <= k < l < |at| ==> at[k] < at[l])
    && (forall i: nat :: i < |lines| && Matches(lines[i], patterns) && i !in at ==> |at| == 50 && at[49] < i)
  }

  // The entries are made of the lines at these indices.
  ghost predicate FirstFifty(lines: seq<string>, patterns: seq<Pattern>, ns: string, podName: string, containerName: string,
                             entries: seq<PodLogEntry>, at: seq<nat>)
  {
    && FirstMatching(lines, patterns, at) && |entries| == |at|
    && forall k :: 0 <= k < |at| ==>
         entries[k] == PodLogEntry(ns, podName, containerName, StripKubeTimestamp(lines[at[k]]))
  }

  /** Which lines become entries. */
  lemma FirstFiftyExists(lines: seq<string>, patterns: seq<Pattern>, ns: string, podName: string, containerName: string)
    returns (at: seq<nat>)
    ensures var entries := AsEntries(Take(MatchingLines(lines, patterns), MAX_ERR_LINES_PER_CONTAINER), ns, podName, containerName);
      FirstFifty(lines, patterns, ns, podName, containerName, entries, at)
  {
    var all := MatchingAt(lines, patterns, |lines|);
    assert lines[..|lines|] == lines;
    MatchingAtExact(lines, patterns, |lines|);
    MatchingAtLines(lines, patterns, |lines|);
    at := if |all| <= 50 then all else all[..50];
    forall k | 0 <= k < |at| ensures at[k] == all[k] && at[k] < |lines| && Matches(lines[at[k]], patterns) {
      assert at[k] == all[k] && all[k] in all;
    }
    forall i: nat | i < |lines| && Matches(lines[i], patterns) && i !in at ensures |at| == 50 && at[49] < i {
      assert i in all;
      BeyondFifty(all, at, i);
    }
  }

  lemma BeyondFifty(all: seq<nat>, at: seq<nat>, i: nat)
    requires at == if |all| <= 50 then all else all[..50]
    requires forall k, l :: 0 <= k < l < |all| ==> all[k] < all[l]
    requires i in all && i !in at
    ensures |at| == 50 && at[49] < i
  {
    forall k | 0 <= k < |at| ensures all[k] != i {
      assert at[k] in at;
    }
    var k :| 0 <= k < |all| && all[k] == i;
  }

  ghost predicate Filtered(lines: seq<string>, patterns: seq<Pattern>, ns: string, podName: string, containerName: string,
                           entries: seq<PodLogEntry>)
  {
    exists at :: FirstFifty(lines, patterns, ns, podName, containerName, entries, at)
  }

  lemma FilteredEntries(lines: seq<string>, patterns: seq<Pattern>, ns: string, podName: string, containerName: string)
    ensures Filtered(lines, patterns, ns, podName, containerName,
      AsEntries(Take(MatchingLines(lines, patterns), MAX_ERR_LINES_PER_CONTAINER), ns, podName, containerName))
  {
    var at := FirstFiftyExists(lines, patterns, ns, podName, containerName);
  }

  // The loop over the custom patterns: texts that do not compile are dropped.
  method CompilePatterns(custom: seq<string>, compile: string -> Option<Pattern>) returns (customPatterns: seq<Pattern>)
    ensures customPatterns == Compiled(custom, compile)
  {
    customPatterns := [];
    for i := 0 to |custom|
      invariant customPatterns == Compiled(custom[..i], compile)
    {
      assert custom[..i + 1][..i] == custom[..i];
      var re := compile(custom[i]);
      if re.Some? {
        customPatterns := customPatterns + [re.value];
      }
    }
    assert custom[..|custom|] == custom;
  }

  // The loop over the lines.
  method KeepMatching(lines: seq<string>, allPatterns: seq<Pattern>, ns: string, podName: string, containerName: string)
    returns (entries: seq<PodLogEntry>)
    ensures entries == AsEntries(Take(MatchingLines(lines, allPatterns), MAX_ERR_LINES_PER_CONTAINER), ns, podName, containerName)
  {
    entries := [];
    var count := 0;
    for i := 0 to |lines|
      invariant count == |entries| <= MAX_ERR_LINES_PER_CONTAINER
      invariant entries == AsEntries(MatchingLines(lines[..i], allPatterns), ns, podName, containerName)
    {
      if count >= MAX_ERR_LINES_PER_CONTAINER {
        MatchingPrefix(lines, allPatterns, i);
        return;
      }
      assert lines[..i + 1][..i] == lines[..i];
      var line := lines[i];
      var matches := MatchesAnyPattern(line, allPatterns);
      if !matches {
        continue;
      }
      var cleanedLine := StripKubeTimestamp(line);
      entries := entries + [PodLogEntry(ns, podName, containerName, cleanedLine)];
      count := count + 1;
    }
    assert lines[..|lines|] == lines;
  }

  /** The entries of a container: the first fifty lines matching a built-in pattern or a custom one
      that compiles, in order, cleaned and tagged. */
  method FilterLogLines(lines: seq<string>, ns: string, podName: string, containerName: string,
                        errorPatterns: seq<Pattern>, custom: seq<string>, compile: string -> Option<Pattern>)
    returns (entries: seq<PodLogEntry>)
    ensures Filtered(lines, errorPatterns + Compiled(custom, compile), ns, podName, containerName, entries)
  {
    var customPatterns := CompilePatterns(custom, compile);
    var allPatterns := errorPatterns + customPatterns;
    FilteredEntries(lines, allPatterns, ns, podName, containerName);
    entries := KeepMatching(lines, allPatterns, ns, podName, containerName);
  }

  /** There is only one such list of entries, so the contract of the filter fixes its result. */
  lemma FirstFiftyUnique(lines: seq<string>, patterns: seq<Pattern>, ns: string, podName: string,
                         containerName: string, e1: seq<PodLogEntry>, e2: seq<PodLogEntry>)
    requires Filtered(lines, patterns, ns, podName, containerName, e1)
    requires Filtered(lines, patterns, ns, podName, containerName, e2)
    ensures e1 == e2
  {
    var at1 :| FirstFifty(lines, patterns, ns, podName, containerName, e1, at1);
    var at2 :| FirstFifty(lines, patterns, ns, podName, containerName, e2, at2);
    OnePositionList(lines, patterns, at1, at2);
    OneEntryList(lines, patterns, ns, podName, containerName, e1, e2, at1);
  }

  lemma OnePositionList(lines: seq<string>, patterns: seq<Pattern>, at1: seq<nat>, at2: seq<nat>)
    requires FirstMatching(lines, patterns, at1) && FirstMatching(lines, patterns, at2)
    ensures at1 == at2
  {
    SamePositions(lines, patterns, at1, at2, |at1|);
    SamePositions(lines, patterns, at2, at1, |at2|);
    assert at1[..|at1|] == at1 && at2[..|at2|] == at2;
  }

  // The indices fix the entries.
  lemma OneEntryList(lines: seq<string>, patterns: seq<Pattern>, ns: string, podName: string, containerName: string,
                     e1: seq<PodLogEntry>, e2: seq<PodLogEntry>, at: seq<nat>)
    requires FirstFifty(lines, patterns, ns, podName, containerName, e1, at)
    requires FirstFifty(lines, patterns, ns, podName, containerName, e2, at)
    ensures e1 == e2
  {
    assert |e1| == |e2|;
    forall k | 0 <= k < |e1| ensures e1[k] == e2[k] {
      assert at[k] == at[k];
    }
  }

  // Two such lists of indices agree on their first n elements.
  lemma {:induction false} SamePositions(lines: seq<string>, patterns: seq<Pattern>, at1: seq<nat>, at2: seq<nat>, n: nat)
    requires FirstMatching(lines, patterns, at1) && FirstMatching(lines, patterns, at2) && n <= |at1|
    ensures n <= |at2| && at1[..n] == at2[..n]
  {
    if n > 0 {
      SamePositions(lines, patterns, at1, at2, n - 1);
      SamePosition(lines, patterns, at1, at2, n - 1);
      OneMore(at1, at2, n - 1);
    }
  }

  lemma OneMore(at1: seq<nat>, at2: seq<nat>, n: nat)
    requires n < |at1| && n < |at2| && at1[..n] == at2[..n] && at1[n] == at2[n]
    ensures at1[..n + 1] == at2[..n + 1]
  {
    assert at1[..n + 1] == at1[..n] + [at1[n]];
    assert at2[..n + 1] == at2[..n] + [at2[n]];
  }

  lemma SamePosition(lines: seq<string>, patterns: seq<Pattern>, at1: seq<nat>, at2: seq<nat>, n: nat)
    requires FirstMatching(lines, patterns, at1) && FirstMatching(lines, patterns, at2)
    requires n < |at1| && n <= |at2| && at1[..n] == at2[..n]
    ensures n < |at2| && at1[n] == at2[n]
  {
    assert forall k :: 0 <= k < n ==> at1[k] == at1[..n][k] && at2[k] == at2[..n][k];
    NextPosition(lines, patterns, at1, at2, n);
    NextPosition(lines, patterns, at2, at1, n);
  }

  // The n-th index of one list cannot be missed by the other.
  lemma NextPosition(lines: seq<string>, patterns: seq<Pattern>, at1: seq<nat>, at2: seq<nat>, n: nat)
    requires FirstMatching(lines, patterns, at1) && FirstMatching(lines, patterns, at2)
    requires n < |at1| && n <= |at2| && forall k :: 0 <= k < n ==> at1[k] == at2[k]
    ensures n < |at2| && at2[n] <= at1[n]
  {
    if at1[n] in at2 {
      var k :| 0 <= k < |at2| && at2[k] == at1[n];
      assert k >= n;
    } else {
      assert at2[49] < at1[n];
    }
  }

  // ---------- the deduplication key ----------

  function Truncate(s: string, max: nat): string {
    if |s| <= max then s else s[..max]
  }

  function Ref(e: PodLogEntry): string {
    e.ns + "/" + e.podName + "[" + e.containerName + "]"
  }

  function Key(e: PodLogEntry): string {
    Ref(e) + ":" + Truncate(e.line, KEY_LINE_BYTES)
  }

  // The characters of section 2.1 of RFC 1123 that object names are made of.
  predicate NameChar(c: char) {
    'a' <= c <= 'z' || '0' <= c <= '9' || c == '-' || c == '.'
  }

  predicate ValidNames(e: PodLogEntry) {
    && (forall c :: c in e.ns ==> NameChar(c))
    && (forall c :: c in e.podName ==> NameChar(c))
    && (forall c :: c in e.containerName ==> NameChar(c))
  }

  // Cutting at the first delimiter is unambiguous.
  lemma CutUnique(x: string, u: string, y: string, v: string, c: char)
    requires x + [c] + u == y + [c] + v && c !in x && c !in y
    ensures x == y && u == v
  {
    var s := x + [c] + u;
    FirstDelimiter(x, c, u);
    FirstDelimiter(y, c, v);
    assert x == s[..|x|] && y == s[..|y|];
    assert u == s[|x| + 1..] && v == s[|y| + 1..];
  }

  // Two lines agree as far as the key looks at them.
  ghost predicate SameLine(l: string, m: string) {
    l == m || (|l| >= 80 && |m| >= 80 && l[..80] == m[..80])
  }

  ghost predicate SameLog(a: PodLogEntry, b: PodLogEntry) {
    a.ns == b.ns && a.podName == b.podName && a.containerName == b.containerName && SameLine(a.line, b.line)
  }

  lemma TruncateSameLine(l: string, m: string)
    ensures Truncate(l, KEY_LINE_BYTES) == Truncate(m, KEY_LINE_BYTES) <==> SameLine(l, m)
  {
  }

  // A resource reference gives back its parts.
  lemma RefExact(a: PodLogEntry, la: string, b: PodLogEntry, lb: string)
    requires ValidNames(a) && ValidNames(b) && Ref(a) + la == Ref(b) + lb
    ensures a.ns == b.ns && a.podName == b.podName && a.containerName == b.containerName && la == lb
  {
    var ca, cb := a.containerName + [']'] + la, b.containerName + [']'] + lb;
    var pa, pb := a.podName + ['['] + ca, b.podName + ['['] + cb;
    RefShape(a, la);
    RefShape(b, lb);
    CutUnique(a.ns, pa, b.ns, pb, '/');
    CutUnique(a.podName, ca, b.podName, cb, '[');
    CutUnique(a.containerName, la, b.containerName, lb, ']');
  }

  lemma RefShape(e: PodLogEntry, rest: string)
    ensures Ref(e) + rest == e.ns + ['/'] + (e.podName + ['['] + (e.containerName + [']'] + rest))
  {
  }

  /** For valid names, two entries share a key exactly if namespace, pod and container agree, and the lines are equal
      or both at least eighty bytes long with the same first eighty. */
  lemma KeyExact(a: PodLogEntry, b: PodLogEntry)
    requires ValidNames(a) && ValidNames(b)
    ensures Key(a) == Key(b) <==> SameLog(a, b)
  {
    TruncateSameLine(a.line, b.line);
    if Key(a) == Key(b) {
      var la, lb := ":" + Truncate(a.line, KEY_LINE_BYTES), ":" + Truncate(b.line, KEY_LINE_BYTES);
      assert Key(a) == Ref(a) + la && Key(b) == Ref(b) + lb;
      RefExact(a, la, b, lb);
      assert la[1..] == Truncate(a.line, KEY_LINE_BYTES) && lb[1..] == Truncate(b.line, KEY_LINE_BYTES);
    }
  }

  /** Without that restriction different containers can share a key. */
  lemma KeyCollision()
    ensures var a, b := PodLogEntry("x/y", "z", "c", "l"), PodLogEntry("x", "y/z", "c", "l");
      a != b && Key(a) == Key(b)
  {
    assert "x/y" + "/" + "z" == "x" + "/" + "y/z";
    assert |"x/y"| == 3 && |"x"| == 1;
  }

  // ---------- findings ----------

  function ToLower(s: string): string {
    seq(|s|, i requires 0 <= i < |s| =>
      if 'A' <= s[i] <= 'Z' then (s[i] as int + 32) as char else s[i])
  }

  predicate OccursAt(s: string, part: string, i: nat) {
    i + |part| <= |s| && s[i..i + |part|] == part
  }

  predicate Contains(s: string, part: string) {
    exists i :: 0 <= i <= |s| && OccursAt(s, part, i)
  }

  function ClassifyLogSeverity(line: string): Severity {
    var lower := ToLower(line);
    if Contains(lower, "panic") || Contains(lower, "fatal") || Contains(lower, "oom") || Contains(lower, "kill")
    then Critical else Warning
  }

  // The word occurs at i in any mixture of letter cases.
  ghost predicate OccursAnyCase(line: string, word: string, i: nat) {
    && i + |word| <= |line|
    && forall k :: 0 <= k < |word| ==> line[i + k] == word[k] || line[i + k] as int + 32 == word[k] as int
  }

  ghost predicate Alarming(line: string) {
    exists i, word :: word in {"panic", "fatal", "oom", "kill"} && OccursAnyCase(line, word, i)
  }

  lemma LowerOccurs(line: string, word: string, i: nat)
    requires forall c :: c in word ==> 'a' <= c <= 'z'
    ensures OccursAt(ToLower(line), word, i) <==> OccursAnyCase(line, word, i)
  {
    var lower := ToLower(line);
    if i + |word| <= |line| {
      forall k | 0 <= k < |word|
        ensures lower[i + k] == word[k] <==> line[i + k] == word[k] || line[i + k] as int + 32 == word[k] as int
      {
        assert word[k] in word;
        LowerChar(line[i + k], word[k]);
      }
      assert OccursAt(lower, word, i) <==> forall k :: 0 <= k < |word| ==> lower[i..i + |word|][k] == word[k];
    }
  }

  lemma LowerChar(c: char, letter: char)
    requires 'a' <= letter <= 'z'
    ensures ToLower([c])[0] == letter <==> c == letter || c as int + 32 == letter as int
  {
  }

  lemma ContainsAnyCase(line: string, word: string)
    requires forall c :: c in word ==> 'a' <= c <= 'z'
    ensures Contains(ToLower(line), word) <==> exists i :: OccursAnyCase(line, word, i)
  {
    forall i: nat { LowerOccurs(line, word, i); }
    forall i | OccursAnyCase(line, word, i) ensures Contains(ToLower(line), word) {
      assert OccursAt(ToLower(line), word, i);
    }
  }

  /** A line is Critical exactly if one of the four words occurs in it, in any letter case, and a Warning otherwise. */
  lemma SeverityIff(line: string)
    ensures ClassifyLogSeverity(line) == if Alarming(line) then Critical else Warning
  {
    ContainsAnyCase(line, "panic");
    ContainsAnyCase(line, "fatal");
    ContainsAnyCase(line, "oom");
    ContainsAnyCase(line, "kill");
    if exists i :: OccursAnyCase(line, "panic", i) {
      var i :| OccursAnyCase(line, "panic", i);
      assert Alarming(line);
    } else if exists i :: OccursAnyCase(line, "fatal", i) {
      var i :| OccursAnyCase(line, "fatal", i);
      assert Alarming(line);
    } else if exists i :: OccursAnyCase(line, "oom", i) {
      var i :| OccursAnyCase(line, "oom", i);
      assert Alarming(line);
    } else if exists i :: OccursAnyCase(line, "kill", i) {
      var i :| OccursAnyCase(line, "kill", i);
      assert Alarming(line);
    }
  }

  function EntryResult(checkName: string, e: PodLogEntry): CheckResult {
    CheckResult(checkName, "Logs", Ref(e), Degraded, ClassifyLogSeverity(e.line), "Log error: " + e.line)
  }

  function ErrorResult(checkName: string, error: string): CheckResult {
    CheckResult(checkName, "Logs", ERROR_REF, Unknown, Warning, "Log collection error: " + error)
  }

  ghost function EntryResults(checkName: string, entries: seq<PodLogEntry>): seq<CheckResult> {
    seq(|entries|, i requires 0 <= i < |entries| => EntryResult(checkName, entries[i]))
  }

  ghost function ErrorResults(checkName: string, errors: seq<string>): seq<CheckResult> {
    seq(|errors|, i requires 0 <= i < |errors| => ErrorResult(checkName, errors[i]))
  }

  lemma EntryResultsNext(checkName: string, entries: seq<PodLogEntry>, e: PodLogEntry)
    ensures EntryResults(checkName, entries + [e]) == EntryResults(checkName, entries) + [EntryResult(checkName, e)]
  {
  }

  lemma ErrorResultsNext(checkName: string, errors: seq<string>, i: nat)
    requires i < |errors|
    ensures ErrorResults(checkName, errors[..i + 1])
         == ErrorResults(checkName, errors[..i]) + [ErrorResult(checkName, errors[i])]
  {
  }

  // r reports the log e: its container, and a line that agrees with its own as far as the key looks.
  ghost predicate Reports(r: CheckResult, checkName: string, e: PodLogEntry) {
    && r.checkName == checkName && r.category == "Logs" && r.status == Degraded
    && r.resourceRef == e.ns + "/" + e.podName + "[" + e.containerName + "]"
    && |r.message| >= 11 && r.message[..11] == "Log error: " && SameLine(r.message[11..], e.line)
    && r.severity == if Alarming(r.message[11..]) then Critical else Warning
  }

  lemma ReportsIff(checkName: string, d: PodLogEntry, e: PodLogEntry)
    requires ValidNames(d) && ValidNames(e)
    ensures Reports(EntryResult(checkName, d), checkName, e) <==> SameLog(d, e)
  {
    var r := EntryResult(checkName, d);
    assert |"Log error: "| == 11;
    assert r.message[..11] == "Log error: " && r.message[11..] == d.line;
    SeverityIff(d.line);
    if Reports(r, checkName, e) {
      assert Ref(d) + "" == Ref(d) && Ref(e) + "" == Ref(e);
      RefExact(d, "", e, "");
    }
  }

  // Exactly one of the results reports e.
  ghost predicate ReportedOnce(results: seq<CheckResult>, checkName: string, e: PodLogEntry) {
    exists i :: 0 <= i < |results| && Reports(results[i], checkName, e)
      && forall j :: 0 <= j < |results| && Reports(results[j], checkName, e) ==> j == i
  }

  // Which results report e, by position.
  lemma ReportsAt(checkName: string, kept: seq<PodLogEntry>, errors: seq<string>, e: PodLogEntry, j: nat)
    requires ValidNames(e) && forall x :: x in kept ==> ValidNames(x)
    requires j < |kept| + |errors|
    ensures Reports((EntryResults(checkName, kept) + ErrorResults(checkName, errors))[j], checkName, e)
      <==> j < |kept| && Key(kept[j]) == Key(e)
  {
    var results := EntryResults(checkName, kept) + ErrorResults(checkName, errors);
    if j < |kept| {
      assert kept[j] in kept && results[j] == EntryResult(checkName, kept[j]);
      ReportsIff(checkName, kept[j], e);
      KeyExact(kept[j], e);
    } else {
      assert results[j] == ErrorResult(checkName, errors[j - |kept|]);
    }
  }

  /** Every log entry is reported, exactly once. */
  lemma EntryReportedOnce(checkName: string, entries: seq<PodLogEntry>, errors: seq<string>, e: PodLogEntry)
    requires e in entries && forall x :: x in entries ==> ValidNames(x)
    ensures ReportedOnce(EntryResults(checkName, Firsts(entries, Key)) + ErrorResults(checkName, errors), checkName, e)
  {
    var kept := Firsts(entries, Key);
    var results := EntryResults(checkName, kept) + ErrorResults(checkName, errors);
    var i := KeptPosition(entries, e);
    forall j | 0 <= j < |results| ensures Reports(results[j], checkName, e) <==> j == i {
      ReportsAt(checkName, kept, errors, e, j);
    }
    assert Reports(results[i], checkName, e);
  }

  // The one kept entry with the key of e.
  lemma KeptPosition(entries: seq<PodLogEntry>, e: PodLogEntry) returns (i: nat)
    requires e in entries
    ensures var kept := Firsts(entries, Key);
      i < |kept| && (forall x :: x in kept ==> x in entries)
      && forall j :: 0 <= j < |kept| ==> (Key(kept[j]) == Key(e) <==> j == i)
  {
    i := PositionOfKey(entries, Key, e);
  }

  /** Two logs that differ where the key looks are reported by different findings. */
  lemma DifferentLogsApart(r: CheckResult, checkName: string, a: PodLogEntry, b: PodLogEntry)
    requires ValidNames(a) && ValidNames(b) && Reports(r, checkName, a) && Reports(r, checkName, b)
    ensures SameLog(a, b)
  {
    assert Ref(a) + "" == Ref(a) && Ref(b) + "" == Ref(b);
    RefExact(a, "", b, "");
  }

  /** The findings about collection errors. */
  lemma ErrorsReported(checkName: string, entries: seq<PodLogEntry>, errors: seq<string>, i: nat)
    requires i < |errors|
    ensures var results := EntryResults(checkName, Firsts(entries, Key)) + ErrorResults(checkName, errors);
      && |results| == |Firsts(entries, Key)| + |errors|
      && results[|Firsts(entries, Key)| + i]
        == CheckResult(checkName, "Logs", "log-collector/error", Unknown, Warning, "Log collection error: " + errors[i])
  {
  }

  /** One finding per key, at its first occurrence, then one per collection error. */
  method ToCheckResults(checkName: string, vmPodLogs: seq<PodLogEntry>, operatorLogs: seq<PodLogEntry>, errors: seq<string>)
    returns (results: seq<CheckResult>)
    ensures results == EntryResults(checkName, Firsts(vmPodLogs + operatorLogs, Key)) + ErrorResults(checkName, errors)
    ensures (forall e :: e in vmPodLogs + operatorLogs ==> ValidNames(e)) ==>
      forall e :: e in vmPodLogs + operatorLogs ==> ReportedOnce(results, checkName, e)
  {
    results := EntryFindings(checkName, vmPodLogs + operatorLogs);
    ghost var fromEntries := results;
    for i := 0 to |errors|
      invariant results == fromEntries + ErrorResults(checkName, errors[..i])
    {
      ErrorResultsNext(checkName, errors, i);
      results := results + [ErrorResult(checkName, errors[i])];
    }
    assert errors[..|errors|] == errors;
    forall e | e in vmPodLogs + operatorLogs && forall x :: x in vmPodLogs + operatorLogs ==> ValidNames(x)
      ensures ReportedOnce(results, checkName, e)
    {
      EntryReportedOnce(checkName, vmPodLogs + operatorLogs, errors, e);
    }
  }

  // The loop over the entries.
  method EntryFindings(checkName: string, entries: seq<PodLogEntry>) returns (results: seq<CheckResult>)
    ensures results == EntryResults(checkName, Firsts(entries, Key))
  {
    results := [];
    var seen: set<string> := {};
    for i := 0 to |entries|
      invariant seen == KeysBefore(entries, Key, i)
      invariant results == EntryResults(checkName, FirstsBefore(entries, Key, i))
    {
      var entry := entries[i];
      var ref := Ref(entry);
      var key := ref + ":" + Truncate(entry.line, KEY_LINE_BYTES);
      assert key == Key(entry);
      EntryResultsNext(checkName, FirstsBefore(entries, Key, i), entry);
      if key in seen {
        continue;
      }
      seen := seen + {key};
      results := results + [EntryResult(checkName, entry)];
    }
  }

  /** Counted on their own, the log findings show as degraded exactly the containers with an entry, and
      nothing as failed or healthy; collection errors are not counted. */
  lemma LogFindingsCount(checkName: string, entries: seq<PodLogEntry>, errors: seq<string>)
    requires forall e :: e in entries ==> ValidNames(e)
    ensures var results := EntryResults(checkName, Firsts(entries, Key)) + ErrorResults(checkName, errors);
      && Counted(results, Degraded) == (set e | e in entries :: Ref(e))
      && Counted(results, Failed) == {} && Counted(results, Healthy) == {}
  {
    var kept := Firsts(entries, Key);
    var results := EntryResults(checkName, kept) + ErrorResults(checkName, errors);
    forall f | f in results
      ensures if f.resourceRef == ERROR_REF then f.status == Unknown else f.status == Degraded
    {
      ResultShape(checkName, kept, errors, f);
    }
    CountedByRef(results, ERROR_REF);
    RefsOfResults(checkName, entries, errors);
  }

  // When every finding is Degraded except those about one resource, which are Unknown.
  lemma CountedByRef(results: seq<CheckResult>, special: string)
    requires forall f :: f in results ==>
      if f.resourceRef == special then f.status == Unknown else f.status == Degraded
    ensures Counted(results, Degraded) == Refs(results) - {special}
    ensures Counted(results, Failed) == {} && Counted(results, Healthy) == {}
  {
    forall ref { FirstWithExists(results, ref); }
  }

  // Deduplication drops no container.
  lemma RefsOfResults(checkName: string, entries: seq<PodLogEntry>, errors: seq<string>)
    requires forall e :: e in entries ==> ValidNames(e)
    ensures Refs(EntryResults(checkName, Firsts(entries, Key)) + ErrorResults(checkName, errors)) - {ERROR_REF}
      == set e | e in entries :: Ref(e)
  {
    var kept := Firsts(entries, Key);
    var results := EntryResults(checkName, kept) + ErrorResults(checkName, errors);
    forall e | e in entries ensures Ref(e) in Refs(results) - {ERROR_REF} {
      EntryIsShown(checkName, entries, errors, e);
    }
    forall ref | ref in Refs(results) - {ERROR_REF} ensures ref in (set e | e in entries :: Ref(e)) {
      var f :| f in results && f.resourceRef == ref;
      ResultShape(checkName, kept, errors, f);
      var e :| e in kept && Ref(e) == f.resourceRef;
      FirstsOnePerKey(entries, Key);
      assert e in entries;
    }
  }

  lemma EntryIsShown(checkName: string, entries: seq<PodLogEntry>, errors: seq<string>, e: PodLogEntry)
    requires e in entries && forall x :: x in entries ==> ValidNames(x)
    ensures Ref(e) in Refs(EntryResults(checkName, Firsts(entries, Key)) + ErrorResults(checkName, errors))
    ensures Ref(e) != ERROR_REF
  {
    var kept := Firsts(entries, Key);
    FirstsOnePerKey(entries, Key);
    var d :| d in kept && Key(d) == Key(e);
    KeyExact(d, e);
    RefIsNotErrorRef(e);
    ShownInResults(checkName, kept, errors, d);
  }

  lemma ShownInResults(checkName: string, kept: seq<PodLogEntry>, errors: seq<string>, d: PodLogEntry)
    requires d in kept
    ensures Ref(d) in Refs(EntryResults(checkName, kept) + ErrorResults(checkName, errors))
  {
    var results := EntryResults(checkName, kept) + ErrorResults(checkName, errors);
    var i :| 0 <= i < |kept| && kept[i] == d;
    assert results[i] == EntryResult(checkName, d);
    assert results[i] in results;
  }

  lemma ResultShape(checkName: string, kept: seq<PodLogEntry>, errors: seq<string>, f: CheckResult)
    requires f in EntryResults(checkName, kept) + ErrorResults(checkName, errors)
    ensures if f.resourceRef == ERROR_REF then f.status == Unknown
      else f.status == Degraded && exists e :: e in kept && Ref(e) == f.resourceRef
  {
    var results := EntryResults(checkName, kept) + ErrorResults(checkName, errors);
    var i :| 0 <= i < |results| && results[i] == f;
    if i < |kept| {
      assert f == EntryResult(checkName, kept[i]);
      RefIsNotErrorRef(kept[i]);
    } else {
      assert f == ErrorResult(checkName, errors[i - |kept|]);
    }
  }

  lemma RefIsNotErrorRef(e: PodLogEntry)
    ensures Ref(e) != ERROR_REF
  {
    assert Ref(e)[|Ref(e)| - 1] == ']';
  }
}
