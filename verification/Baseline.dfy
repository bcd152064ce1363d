/**
 The ratchets' baseline file: its printer, its parser and the verdict of a check
 (tools/_ratchet.py).

 A file is its text, or None when it does not exist. A line break is any character
 `str.splitlines` breaks at; the pair CR LF counts as two breaks here, which only
 adds an empty line, and empty lines are not entries.
 */
module Baseline {
  import opened NameOrder
  import opened Prelude

  predicate IsBreak(c: char) {
    '\n' <= c <= '\r' || '\U{1c}' <= c <= '\U{1e}' || c in "\U{85}\U{2028}\U{2029}"
  }

  predicate IsSpace(c: char) {
    IsBreak(c) || c in "\t \U{1f}\U{a0}\U{1680}\U{202f}\U{205f}\U{3000}" || '\U{2000}' <= c <= '\U{200a}'
  }

  function Lines(text: string): (lines: seq<string>)
    ensures lines != []
  {
    if text == "" then [""]
    else
      var rest := Lines(text[1..]);
      if IsBreak(text[0]) then [""] + rest else [[text[0]] + rest[0]] + rest[1..]
  }

  function StripLeft(s: string): string {
    if s != "" && IsSpace(s[0]) then StripLeft(s[1..]) else s
  }

  function StripRight(s: string): string {
    if s != "" && IsSpace(s[|s| - 1]) then StripRight(s[..|s| - 1]) else s
  }

  function Strip(s: string): string { StripRight(StripLeft(s)) }

  predicate IsEntry(s: string) { s != "" && s[0] != '#' }

  /** The grandfathered keys: stripped lines that are neither blank nor comments. */
  function Entries(text: string): set<string> {
    set line <- Lines(text) | IsEntry(Strip(line)) :: Strip(line)
  }

  function LoadBaseline(file: Option<string>): set<string> {
    match file
    case None => {}
    case Some(text) => Entries(text)
  }

  function Join(keys: seq<string>): string {
    if keys == [] then "" else if |keys| == 1 then keys[0] else keys[0] + "\n" + Join(keys[1..])
  }

  /** The written file: comment header, then the sorted keys one to a line. */
  function WriteBaseline(header: string, keys: seq<string>): string {
    header + Join(SortNames(keys)) + if keys == [] then "" else "\n"
  }

  /** A key that survives the file: trimmed, not empty, on one line, not a comment. */
  predicate IsKey(s: string) {
    && s != "" && s[0] != '#'
    && !IsSpace(s[0]) && !IsSpace(s[|s| - 1])
    && forall i :: 0 <= i < |s| ==> !IsBreak(s[i])
  }

  ghost predicate AllKeys(keys: seq<string>) {
    forall k <- keys :: IsKey(k)
  }

  /** What the writers pass as header: comment lines only, each ended by a newline. */
  predicate IsHeader(header: string) {
    Entries(header) == {} && (header != "" ==> header[|header| - 1] == '\n')
  }

  // ------------------------------------------------------------ the parser

  /** Lines around a break are the lines before it and the lines after it. */
  lemma {:induction false} LinesConcat(a: string, c: char, b: string)
    requires IsBreak(c)
    ensures Lines(a + [c] + b) == Lines(a) + Lines(b)
  {
    var text := a + [c] + b;
    if a == "" {
      assert text[1..] == b;
    } else {
      assert text[1..] == a[1..] + [c] + b;
      LinesConcat(a[1..], c, b);
    }
  }

  lemma EntriesConcat(a: string, c: char, b: string)
    requires IsBreak(c)
    ensures Entries(a + [c] + b) == Entries(a) + Entries(b)
  {
    LinesConcat(a, c, b);
  }

  lemma EntriesOfNothing()
    ensures Entries("") == {}
  {
    assert Lines("") == [""];
  }

  lemma {:induction false} StripIsTrimmed(s: string)
    ensures var t := Strip(s);
      (t != "" ==> !IsSpace(t[0]) && !IsSpace(t[|t| - 1])) && forall c :: c in t ==> c in s
  {
    StripLeftIsSuffix(s);
    StripRightIsPrefix(StripLeft(s));
  }

  lemma {:induction false} StripLeftIsSuffix(s: string)
    ensures var t := StripLeft(s);
      (t != "" ==> !IsSpace(t[0])) && forall c :: c in t ==> c in s
  {
    if s != "" && IsSpace(s[0]) { StripLeftIsSuffix(s[1..]); }
  }

  lemma {:induction false} StripRightIsPrefix(s: string)
    ensures StripRight(s) <= s
    ensures StripRight(s) != "" ==> !IsSpace(StripRight(s)[|StripRight(s)| - 1])
  {
    if s != "" && IsSpace(s[|s| - 1]) { StripRightIsPrefix(s[..|s| - 1]); }
  }

  ghost predicate OnlySpace(s: string) { forall i :: 0 <= i < |s| ==> IsSpace(s[i]) }

  /** Stripping takes away white space on both sides and nothing else. */
  lemma StripTakesOnlySpace(s: string) returns (left: string, right: string)
    ensures s == left + Strip(s) + right && OnlySpace(left) && OnlySpace(right)
  {
    left := StripLeftTakes(s);
    right := StripRightTakes(StripLeft(s));
  }

  lemma {:induction false} StripLeftTakes(s: string) returns (left: string)
    ensures s == left + StripLeft(s) && OnlySpace(left)
  {
    if s == "" || !IsSpace(s[0]) { return ""; }
    left := StripLeftTakes(s[1..]);
    left := [s[0]] + left;
  }

  lemma {:induction false} StripRightTakes(s: string) returns (right: string)
    ensures s == StripRight(s) + right && OnlySpace(right)
  {
    if s == "" || !IsSpace(s[|s| - 1]) { return ""; }
    right := StripRightTakes(s[..|s| - 1]);
    right := right + [s[|s| - 1]];
  }

  lemma {:induction false} LinesHaveNoBreaks(text: string, line: string)
    requires line in Lines(text)
    ensures forall c :: c in line ==> !IsBreak(c)
  {
    if text != "" {
      var rest := Lines(text[1..]);
      if line in rest {
        LinesHaveNoBreaks(text[1..], line);
      } else if !IsBreak(text[0]) {
        assert line == [text[0]] + rest[0];
        LinesHaveNoBreaks(text[1..], rest[0]);
      }
    }
  }

  lemma {:induction false} OneLine(text: string)
    requires forall i :: 0 <= i < |text| ==> !IsBreak(text[i])
    ensures Lines(text) == [text]
  {
    if text != "" {
      OneLine(text[1..]);
      assert text == [text[0]] + text[1..];
    }
  }

  /** Whatever the file holds, each entry read from it is a well-formed key. */
  lemma EntriesAreKeys(text: string, key: string)
    requires key in Entries(text)
    ensures IsKey(key)
  {
    var line :| line in Lines(text) && IsEntry(Strip(line)) && Strip(line) == key;
    LinesHaveNoBreaks(text, line);
    StripIsTrimmed(line);
    forall i | 0 <= i < |key| ensures !IsBreak(key[i]) {
      assert key[i] in key;
    }
  }

  /** A well-formed key on a line of its own is read back as itself. */
  lemma KeyIsItsEntry(key: string)
    requires IsKey(key)
    ensures Entries(key) == {key}
  {
    OneLine(key);
    assert Strip(key) == key;
  }

  // -------------------------------------------------------- the round trip

  ghost function EntriesOfAll(keys: seq<string>): set<string> {
    if keys == [] then {} else Entries(keys[0]) + EntriesOfAll(keys[1..])
  }

  lemma {:induction false} JoinEntries(keys: seq<string>)
    requires keys != []
    ensures Entries(Join(keys) + "\n") == EntriesOfAll(keys)
  {
    EntriesOfNothing();
    if |keys| == 1 {
      EntriesConcat(keys[0], '\n', "");
      assert keys[0] + "\n" == keys[0] + ['\n'] + "";
    } else {
      JoinEntries(keys[1..]);
      EntriesConcat(keys[0], '\n', Join(keys[1..]) + "\n");
      assert Join(keys) + "\n" == keys[0] + ['\n'] + (Join(keys[1..]) + "\n");
    }
  }

  lemma {:induction false} AllAreKeys(keys: seq<string>)
    requires AllKeys(keys)
    ensures EntriesOfAll(keys) == set k <- keys
  {
    if keys != [] {
      KeyIsItsEntry(keys[0]);
      AllAreKeys(keys[1..]);
      assert keys == [keys[0]] + keys[1..];
    }
  }

  /** A comment-only header hides nothing and adds nothing. */
  lemma HeaderIsSilent(header: string, body: string)
    requires IsHeader(header)
    ensures Entries(header + body) == Entries(body)
  {
    if header == "" {
      assert header + body == body;
    } else {
      var h := header[..|header| - 1];
      EntriesOfNothing();
      EntriesConcat(h, '\n', "");
      EntriesConcat(h, '\n', body);
      assert header == h + ['\n'] + "";
      assert header + body == h + ['\n'] + body;
    }
  }

  /** Comment lines are a header: none of them is read as an entry. */
  lemma CommentsAreHeader(comment: string, more: string)
    requires (forall i :: 0 <= i < |comment| ==> !IsBreak(comment[i])) && IsHeader(more)
    ensures IsHeader("#" + comment + "\n" + more)
  {
    var line := "#" + comment;
    OneLine(line);
    assert StripLeft(line) == line;
    StripRightIsPrefix(line);
    assert !IsEntry(Strip(line));
    EntriesConcat(line, '\n', more);
    assert line + "\n" + more == line + ['\n'] + more;
  }

  lemma {:induction false} JoinedLines(keys: seq<string>)
    requires keys != [] && AllKeys(keys)
    ensures Lines(Join(keys) + "\n") == keys + [""]
  {
    assert IsKey(keys[0]);
    OneLine(keys[0]);
    assert Lines("") == [""];
    if |keys| == 1 {
      LinesConcat(keys[0], '\n', "");
      assert Join(keys) + "\n" == keys[0] + ['\n'] + "";
    } else {
      JoinedLines(keys[1..]);
      LinesConcat(keys[0], '\n', Join(keys[1..]) + "\n");
      assert Join(keys) + "\n" == keys[0] + ['\n'] + (Join(keys[1..]) + "\n");
    }
  }

  /** Behind its header the written file holds the keys one to a line, in ascending order. */
  lemma WrittenLines(header: string, keys: seq<string>) returns (sorted: seq<string>)
    requires header != "" && header[|header| - 1] == '\n' && keys != [] && AllKeys(keys)
    ensures Ascending(sorted) && multiset(sorted) == multiset(keys)
    ensures Lines(WriteBaseline(header, keys)) == Lines(header[..|header| - 1]) + (sorted + [""])
  {
    sorted := SortNames(keys);
    SortNamesSorts(keys);
    JoinedLines(sorted);
    var body := Join(sorted) + "\n";
    LinesConcat(header[..|header| - 1], '\n', body);
    assert WriteBaseline(header, keys) == header[..|header| - 1] + ['\n'] + body;
  }

  lemma WrittenEntries(header: string, keys: seq<string>)
    requires IsHeader(header)
    ensures Entries(WriteBaseline(header, keys)) == EntriesOfAll(SortNames(keys))
  {
    SortNamesSorts(keys);
    var sorted := SortNames(keys);
    if keys == [] {
      EntriesOfNothing();
      assert WriteBaseline(header, keys) == header + "";
      HeaderIsSilent(header, "");
    } else {
      JoinEntries(sorted);
      HeaderIsSilent(header, Join(sorted) + "\n");
      assert WriteBaseline(header, keys) == header + (Join(sorted) + "\n");
    }
  }

  /** Loading a written baseline gives back the key set exactly when every key is well-formed. */
  lemma RoundTripIff(header: string, keys: seq<string>)
    requires IsHeader(header)
    ensures LoadBaseline(Some(WriteBaseline(header, keys))) == (set k <- keys) <==> AllKeys(keys)
  {
    var text := WriteBaseline(header, keys);
    var sorted := SortNames(keys);
    SortNamesSorts(keys);
    WrittenEntries(header, keys);
    if AllKeys(keys) {
      AllAreKeys(sorted);
      assert (set k <- sorted) == (set k <- keys);
    }
    if Entries(text) == (set k <- keys) {
      forall k | k in keys ensures IsKey(k) {
        EntriesAreKeys(text, k);
      }
    }
  }

  // ------------------------------------------------------------ the verdict

  const UPDATE := "--update-baseline"

  datatype Verdict = Verdict(exitCode: int, reported: seq<string>)

  /** The violations whose key the baseline does not hold, in scan order. */
  function NewOnes(scan: seq<string>, baseline: set<string>): seq<string> {
    if scan == [] then []
    else NewOnes(scan[..|scan| - 1], baseline) + if scan[|scan| - 1] in baseline then [] else [scan[|scan| - 1]]
  }

  lemma {:induction false} NewOnesMember(scan: seq<string>, baseline: set<string>, key: string)
    ensures key in NewOnes(scan, baseline) <==> key in scan && key !in baseline
  {
    if scan != [] {
      NewOnesMember(scan[..|scan| - 1], baseline, key);
      assert scan == scan[..|scan| - 1] + [scan[|scan| - 1]];
    }
  }

  /** The report keeps the scan's order, and each new violation as often as it was found. */
  lemma {:induction false} NewOnesInOrder(scan: seq<string>, baseline: set<string>, key: string) returns (at: seq<nat>)
    ensures Picks(scan, at, NewOnes(scan, baseline))
    ensures multiset(NewOnes(scan, baseline))[key] == if key in baseline then 0 else multiset(scan)[key]
  {
    if scan == [] { return []; }
    var init, last := scan[..|scan| - 1], scan[|scan| - 1];
    at := NewOnesInOrder(init, baseline, key);
    PicksSnoc(init, at, NewOnes(init, baseline), last);
    assert scan == init + [last];
    if last !in baseline { at := at + [|init|]; }
  }

  /** A checker's committed baseline file; an update writes the keys of the current scan to it. */
  class RatchetFile {
    var text: Option<string>

    /** `scan` holds the key of every violation found, in the order found. */
    method RunCli(args: seq<string>, header: string, scan: seq<string>) returns (verdict: Verdict)
      modifies this
      ensures verdict.exitCode == 2 <==> exists a <- args :: a != "--update-baseline"
      ensures text ==
        if verdict.exitCode != 2 && "--update-baseline" in args then Some(WriteBaseline(header, scan)) else old(text)
      ensures verdict.exitCode == 2 || "--update-baseline" in args ==> verdict.reported == []
      ensures args == [] ==> verdict.reported == NewOnes(scan, LoadBaseline(old(text)))
      ensures verdict.exitCode == 1 <==> verdict.reported != []
      ensures verdict.exitCode in {0, 1, 2}
    {
      if exists a <- args :: a != UPDATE {
        return Verdict(2, []);
      }
      if UPDATE in args {
        text := Some(WriteBaseline(header, scan));
        return Verdict(0, []);
      }
      var baseline := LoadBaseline(text);
      var added := [];
      for i := 0 to |scan|
        invariant added == NewOnes(scan[..i], baseline)
      {
        assert scan[..i + 1][..i] == scan[..i];
        if scan[i] !in baseline { added := added + [scan[i]]; }
      }
      assert scan[..|scan|] == scan;
      return Verdict(if added == [] then 0 else 1, added);
    }
  }

  /** After an update, a check reports exactly the violations that were not there before. */
  lemma CheckAfterUpdate(header: string, scan: seq<string>, later: seq<string>, key: string)
    requires IsHeader(header) && AllKeys(scan)
    ensures key in NewOnes(later, LoadBaseline(Some(WriteBaseline(header, scan)))) <==> key in later && key !in scan
  {
    RoundTripIff(header, scan);
    NewOnesMember(later, LoadBaseline(Some(WriteBaseline(header, scan))), key);
  }

  /** A check straight after an update is clean exactly when every key is well-formed. */
  lemma CleanAfterUpdateIff(header: string, scan: seq<string>)
    requires IsHeader(header)
    ensures NewOnes(scan, LoadBaseline(Some(WriteBaseline(header, scan)))) == [] <==> AllKeys(scan)
  {
    var text := WriteBaseline(header, scan);
    var added := NewOnes(scan, LoadBaseline(Some(text)));
    if added == [] {
      forall k | k in scan ensures IsKey(k) {
        NewOnesMember(scan, LoadBaseline(Some(text)), k);
        EntriesAreKeys(text, k);
      }
    } else if AllKeys(scan) {
      CheckAfterUpdate(header, scan, scan, added[0]);
      assert false;
    }
  }
}
