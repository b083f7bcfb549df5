/**
 * The two file readers: `KEY=VALUE` settings files (secrets and variables to
 * set) and one-item-per-line list files (names to delete, target
 * repositories). A file is given as its lines; opening, decoding and the
 * splitting into lines are not part of this model, and a read that raises
 * is the `Unreadable` input.
 */
module LineParsers {
  import opened Wrappers
  import opened Strings
  import Dicts
  import Seqs

  /** What the reader was handed: no path at all, a path whose reading raised, or the file's lines. */
  datatype FileInput = NoPath | Unreadable | Lines(lines: seq<string>)

  /** What one line of a settings file contributes. */
  datatype KeyValueLine = Ignored | MissingEquals | MissingKey | Pair(key: string, value: string)

  predicate IsQuote(c: char)
  {
    c == '"' || c == '\''
  }

  /** The test the reader applies: the value starts and ends with `"`, or starts and ends with `'`. */
  predicate QuotedWith(v: string)
  {
    (StartsWith(v, "\"") && EndsWith(v, "\"")) || (StartsWith(v, "'") && EndsWith(v, "'"))
  }

  /** The test looks only at the first and the last character. */
  lemma QuotedWithChars(v: string)
    ensures QuotedWith(v) <==> |v| >= 1 && IsQuote(v[0]) && v[|v| - 1] == v[0]
  {
    StartsWithChar(v, '"');
    EndsWithChar(v, '"');
    StartsWithChar(v, '\'');
    EndsWithChar(v, '\'');
  }

  /**
   * Removes one layer of matching quotes, as `value[1:-1]` does when the
   * value starts and ends with the same quote character; a lone quote
   * character becomes empty.
   */
  function Unquote(v: string): (r: string)
    ensures QuotedWith(v) ==> r == (if |v| >= 2 then v[1..|v| - 1] else "")
    ensures !QuotedWith(v) ==> r == v
  {
    QuotedWithChars(v);
    if |v| >= 1 && IsQuote(v[0]) && v[|v| - 1] == v[0] then
      if |v| >= 2 then v[1..|v| - 1] else ""
    else v
  }

  /**
   * One line of a settings file: stripped; blank and `#` lines ignored;
   * split at the first `=`; key and value stripped; the value unquoted; an
   * empty key rejected.
   */
  function ParseKeyValueLine(raw: string): (r: KeyValueLine)
    ensures r == Ignored <==> Strip(raw) == "" || Strip(raw)[0] == '#'
    ensures r == MissingEquals <==> r != Ignored && '=' !in raw
    ensures r.Pair? ==> r.key != "" && Trimmed(r.key) && '=' !in r.key
  {
    var line := Strip(raw);
    StripInfix(raw);
    if line == "" || line[0] == '#' then Ignored else SplitAssignment(line)
  }

  /** A non-blank, non-comment line split at its first `=`. */
  function SplitAssignment(line: string): (r: KeyValueLine)
    ensures r != Ignored
    ensures r == MissingEquals <==> '=' !in line
    ensures r.Pair? ==> r.key != "" && Trimmed(r.key) && '=' !in r.key
  {
    match IndexOf(line, '=')
    case None => MissingEquals
    case Some(i) =>
      var key := Strip(line[..i]);
      StripSpec(line[..i]);
      StripInfix(line[..i]);
      if key == "" then MissingKey else Pair(key, Unquote(Strip(line[i + 1..])))
  }

  /**
   * A line splits at its first `=`: whatever text `a` precedes it and
   * whatever text `b` follows it, the key is `a` stripped, an empty key is
   * rejected, and the value is `b` stripped and then unquoted.
   */
  lemma SplitSpec(line: string, a: string, b: string)
    requires line == a + "=" + b && '=' !in a
    ensures SplitAssignment(line) == if Strip(a) == "" then MissingKey else Pair(Strip(a), Unquote(Strip(b)))
  {
    assert line[..|a|] == a;
    assert line[|a|] == '=';
    IndexOfFirst(line, '=', |a|);
    assert line[|a| + 1..] == b;
  }

  /**
   * The whole line reader on an assignment: once stripped, a line that is
   * `a`, then its first `=`, then `b`, and is not a comment, gives the key
   * `a` stripped (or no key when that is empty) and the value `b` stripped
   * and unquoted, with either quote character.
   */
  lemma ParseSpec(raw: string, a: string, b: string)
    requires Strip(raw) == a + "=" + b && '=' !in a && (a == "" || a[0] != '#')
    ensures ParseKeyValueLine(raw) == if Strip(a) == "" then MissingKey else Pair(Strip(a), Unquote(Strip(b)))
  {
    var line := Strip(raw);
    assert line != "" && line[0] != '#' by {
      if a == "" {
        assert line[0] == '=';
      } else {
        assert line[0] == a[0];
      }
    }
    SplitSpec(line, a, b);
  }

  /** Every line with an `=` has such a split: the text before its first `=` holds none. */
  lemma SplitExists(line: string)
    requires '=' in line
    ensures exists a, b :: line == a + "=" + b && '=' !in a
  {
    var i := IndexOf(line, '=').value;
    assert line == line[..i] + "=" + line[i + 1..];
  }

  /** `strip` keeps exactly the non-space characters of its input, and possibly some spaces. */
  lemma StripInfix(s: string)
    ensures forall c :: c in Strip(s) ==> c in s
    ensures forall c :: c in s && !IsSpace(c) ==> c in Strip(s)
  {
    StripWithin(s);
    StripKeeps(s);
  }

  /** Every character `strip` returns comes from its input. */
  lemma StripWithin(s: string)
    ensures forall c :: c in Strip(s) ==> c in s
  {
    var l := LStrip(s);
    var r := RStrip(l);
    var a := |s| - |l|;
    forall c | c in r ensures c in s {
      var i :| 0 <= i < |r| && r[i] == c;
      assert l[i] == c;
      assert s[a + i] == c;
    }
  }

  /** `strip` removes no non-space character. */
  lemma StripKeeps(s: string)
    ensures forall c :: c in s && !IsSpace(c) ==> c in Strip(s)
  {
    var l := LStrip(s);
    var r := RStrip(l);
    var a := |s| - |l|;
    assert forall k :: 0 <= k < a ==> IsSpace(s[k]) by {
      forall k | 0 <= k < a ensures IsSpace(s[k]) { assert s[..a][k] == s[k]; }
    }
    assert forall k :: |r| <= k < |l| ==> IsSpace(l[k]) by {
      forall k | |r| <= k < |l| ensures IsSpace(l[k]) { assert l[|r|..][k - |r|] == l[k]; }
    }
    forall c | c in s && !IsSpace(c) ensures c in r {
      var i :| 0 <= i < |s| && s[i] == c;
      assert l[i - a] == c;
      assert r[i - a] == c;
    }
  }

  /** The settings line that writes a key and a double-quoted value. */
  function Render(key: string, value: string): string
  {
    key + "=\"" + value + "\""
  }

  /**
   * Round trip: a key that is non-empty, already stripped, holds no `=` and
   * does not start with `#` reads back with any value whatever, surrounding
   * whitespace and inner quotes and `=` included, however the line is
   * indented or padded.
   */
  lemma ParseRender(ws: string, key: string, value: string, ws2: string)
    requires AllSpace(ws) && AllSpace(ws2)
    requires key != "" && Trimmed(key) && '=' !in key && key[0] != '#'
    ensures ParseKeyValueLine(ws + Render(key, value) + ws2) == Pair(key, value)
  {
    var line := Render(key, value);
    assert Trimmed(line) by { assert line[0] == key[0]; }
    StripPadded(ws, line, ws2);
    SplitRender(key, value);
  }

  lemma SplitRender(key: string, value: string)
    requires key != "" && Trimmed(key) && '=' !in key
    ensures SplitAssignment(Render(key, value)) == Pair(key, value)
  {
    var line := Render(key, value);
    var rest := "\"" + value + "\"";
    assert line == key + "=" + rest;
    assert line[|key|] == '=';
    assert line[..|key|] == key;
    IndexOfFirst(line, '=', |key|);
    StripTrimmed(key);
    assert line[|key| + 1..] == rest;
    UnquoteQuoted(value);
  }

  /** A double-quoted value is already stripped and loses exactly its quotes. */
  lemma UnquoteQuoted(value: string)
    ensures Unquote(Strip("\"" + value + "\"")) == value
  {
    var rest := "\"" + value + "\"";
    assert rest[0] == '"' && rest[|rest| - 1] == '"';
    assert !IsSpace('"');
    StripTrimmed(rest);
    QuotedWithChars(rest);
    assert rest[1..|rest| - 1] == value;
  }

  /** Each line's parse, in order. */
  function Parsed(lines: seq<string>): (ps: seq<KeyValueLine>)
    ensures |ps| == |lines|
  {
    seq(|lines|, i requires 0 <= i < |lines| => ParseKeyValueLine(lines[i]))
  }

  /** The settings the parsed lines give: each pair assigns its key, later pairs overwriting earlier ones. */
  function Collect(ps: seq<KeyValueLine>): Dicts.Pairs
  {
    if |ps| == 0 then []
    else
      var d := Collect(ps[..|ps| - 1]);
      match ps[|ps| - 1]
      case Pair(k, v) => Dicts.Put(d, k, v)
      case _ => d
  }

  /** The settings read from lines, as `read_key_value_pairs` builds its dictionary. */
  function ParseKeyValueLines(lines: seq<string>): Dicts.Pairs
  {
    Collect(Parsed(lines))
  }

  /** Whether parsed line i assigns key k. */
  predicate Assigns(ps: seq<KeyValueLine>, i: int, k: string)
    requires 0 <= i < |ps|
  {
    ps[i].Pair? && ps[i].key == k
  }

  /** The value of the last pair assigning a key, searching from the end; None when no pair does. */
  function LastValue(ps: seq<KeyValueLine>, k: string): Option<string>
  {
    if |ps| == 0 then None
    else if Assigns(ps, |ps| - 1, k) then Some(ps[|ps| - 1].value)
    else LastValue(ps[..|ps| - 1], k)
  }

  /** Collecting the parsed lines gives each key once, with the value of its last assignment. */
  lemma {:induction false} CollectSpec(ps: seq<KeyValueLine>)
    ensures Dicts.UniqueKeys(Collect(ps))
    ensures forall k :: Dicts.Lookup(Collect(ps), k) == LastValue(ps, k)
  {
    if |ps| > 0 {
      var init := ps[..|ps| - 1];
      CollectSpec(init);
      var last := ps[|ps| - 1];
      if last.Pair? {
        Dicts.PutSpec(Collect(init), last.key, last.value);
      }
    }
  }

  /** The search finds nothing exactly when no pair assigns the key. */
  lemma {:induction false} LastValueAbsent(ps: seq<KeyValueLine>, k: string)
    ensures LastValue(ps, k).None? <==> forall i :: 0 <= i < |ps| ==> !Assigns(ps, i, k)
  {
    if |ps| > 0 {
      var n := |ps| - 1;
      var init := ps[..n];
      LastValueAbsent(init, k);
      assert forall i :: 0 <= i < n ==> Assigns(ps, i, k) == Assigns(init, i, k);
    }
  }

  /** The search finds the value of the assigning pair that no later pair overrides. */
  lemma {:induction false} LastValueLast(ps: seq<KeyValueLine>, k: string, i: nat)
    requires i < |ps| && Assigns(ps, i, k)
    requires forall j :: i < j < |ps| ==> !Assigns(ps, j, k)
    ensures LastValue(ps, k) == Some(ps[i].value)
  {
    var n := |ps| - 1;
    if i < n {
      var init := ps[..n];
      assert Assigns(init, i, k);
      forall j | i < j < n ensures !Assigns(init, j, k) {
        assert !Assigns(ps, j, k) && init[j] == ps[j];
      }
      LastValueLast(init, k, i);
    }
  }

  /** Whether line i of a settings file assigns key k. */
  predicate LineAssigns(lines: seq<string>, i: int, k: string)
    requires 0 <= i < |lines|
  {
    var p := ParseKeyValueLine(lines[i]);
    p.Pair? && p.key == k
  }

  /** Line i assigns a key exactly when its parse does. */
  lemma ParsedAssigns(lines: seq<string>, k: string)
    ensures forall i :: 0 <= i < |lines| ==> (LineAssigns(lines, i, k) <==> Assigns(Parsed(lines), i, k))
  {
    var ps := Parsed(lines);
    forall i | 0 <= i < |lines| ensures LineAssigns(lines, i, k) <==> Assigns(ps, i, k) {
      assert ps[i] == ParseKeyValueLine(lines[i]);
    }
  }

  /**
   * The settings read from a file hold each key once, and a key is absent
   * exactly when no line assigns it.
   */
  lemma ParseKeyValueLinesAbsent(lines: seq<string>, k: string)
    ensures Dicts.UniqueKeys(ParseKeyValueLines(lines))
    ensures Dicts.Lookup(ParseKeyValueLines(lines), k).None? <==> forall i :: 0 <= i < |lines| ==> !LineAssigns(lines, i, k)
  {
    var ps := Parsed(lines);
    CollectSpec(ps);
    LastValueAbsent(ps, k);
    ParsedAssigns(lines, k);
  }

  /** A key assigned by several lines has the value of the last of them. */
  lemma ParseKeyValueLinesLast(lines: seq<string>, k: string, i: nat)
    requires i < |lines| && LineAssigns(lines, i, k)
    requires forall j :: i < j < |lines| ==> !LineAssigns(lines, j, k)
    ensures Dicts.Lookup(ParseKeyValueLines(lines), k) == Some(ParseKeyValueLine(lines[i]).value)
  {
    var ps := Parsed(lines);
    CollectSpec(ps);
    ParsedAssigns(lines, k);
    assert ps[i] == ParseKeyValueLine(lines[i]);
    LastValueLast(ps, k, i);
  }

  /** The settings file reader: no path or a read that raises gives no settings. */
  function ReadKeyValuePairs(input: FileInput): (r: Dicts.Pairs)
    ensures !input.Lines? ==> r == []
    ensures input.Lines? ==> r == ParseKeyValueLines(input.lines)
  {
    match input
    case Lines(lines) => ParseKeyValueLines(lines)
    case _ => []
  }

  /** A list line is kept when it is not blank and its raw form does not start with `#`. */
  predicate KeepListLine(raw: string)
  {
    Strip(raw) != "" && !(|raw| > 0 && raw[0] == '#')
  }

  /** The filter in the program's own terms: the stripped line is non-empty and the raw line does not start with the string `#`. */
  lemma KeepListLineTest(raw: string)
    ensures KeepListLine(raw) <==> Strip(raw) != "" && !StartsWith(raw, "#")
  {
    StartsWithChar(raw, '#');
  }

  /** The kept lines, each stripped, in order, duplicates included. */
  function ListLines(lines: seq<string>): (r: seq<string>)
    ensures |r| <= |lines|
  {
    if |lines| == 0 then []
    else (if KeepListLine(lines[0]) then [Strip(lines[0])] else []) + ListLines(lines[1..])
  }

  /** The filter works line by line: reading two pieces of a file one after the other reads the whole. */
  lemma {:induction false} ListLinesAppend(a: seq<string>, b: seq<string>)
    ensures ListLines(a + b) == ListLines(a) + ListLines(b)
  {
    if |a| > 0 {
      var head := if KeepListLine(a[0]) then [Strip(a[0])] else [];
      Seqs.DropAppend(a, b);
      assert ListLines(a + b) == head + ListLines(a[1..] + b);
      ListLinesAppend(a[1..], b);
      Seqs.AppendAssoc(head, ListLines(a[1..]), ListLines(b));
    } else {
      assert a + b == b;
    }
  }

  /** Every line the list reader returns is a kept line of the file, stripped. */
  lemma {:induction false} ListLinesSound(lines: seq<string>)
    ensures forall x :: x in ListLines(lines) ==> exists i :: 0 <= i < |lines| && KeepListLine(lines[i]) && Strip(lines[i]) == x
  {
    if |lines| > 0 {
      ListLinesSound(lines[1..]);
      forall x | x in ListLines(lines[1..])
        ensures exists i :: 0 <= i < |lines| && KeepListLine(lines[i]) && Strip(lines[i]) == x
      {
        var i :| 0 <= i < |lines[1..]| && KeepListLine(lines[1..][i]) && Strip(lines[1..][i]) == x;
        assert lines[i + 1] == lines[1..][i];
      }
    }
  }

  /** Every returned line is non-empty and has no surrounding whitespace. */
  lemma ListLinesTrimmed(lines: seq<string>)
    ensures forall x :: x in ListLines(lines) ==> x != "" && Trimmed(x)
  {
    ListLinesSound(lines);
    forall x | x in ListLines(lines) ensures x != "" && Trimmed(x) {
      var i :| 0 <= i < |lines| && KeepListLine(lines[i]) && Strip(lines[i]) == x;
      StripSpec(lines[i]);
    }
  }

  /** Every kept line of the file is returned, stripped. */
  lemma ListLinesComplete(lines: seq<string>, i: nat)
    requires i < |lines| && KeepListLine(lines[i])
    ensures Strip(lines[i]) in ListLines(lines)
  {
    var pre, suffix := lines[..i], lines[i..];
    assert lines == pre + suffix;
    ListLinesAppend(pre, suffix);
    assert suffix[0] == lines[i];
    assert ListLines(suffix) == [Strip(lines[i])] + ListLines(suffix[1..]);
  }

  /**
   * The two readers treat `#` differently: an indented comment line is kept
   * by the list reader, stripped so that it starts with `#`, but ignored by
   * the settings reader, which looks for `#` after stripping.
   */
  lemma IndentedHash(ws: string, rest: string)
    requires ws != "" && AllSpace(ws) && Trimmed("#" + rest)
    ensures ListLines([ws + "#" + rest]) == ["#" + rest]
    ensures ParseKeyValueLine(ws + "#" + rest) == Ignored
  {
    var raw := ws + "#" + rest;
    StripPadded(ws, "#" + rest, "");
    assert raw == ws + ("#" + rest) + "";
    assert raw[0] == ws[0];
    var one: seq<string> := [raw];
    assert one[1..] == [];
  }

  /** The list file reader: no path or a read that raises gives an empty list. */
  function ReadListFromFile(input: FileInput): (r: seq<string>)
    ensures !input.Lines? ==> r == []
    ensures input.Lines? ==> r == ListLines(input.lines)
  {
    match input
    case Lines(lines) => ListLines(lines)
    case _ => []
  }
}
