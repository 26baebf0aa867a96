/** The language-preference store of recognition_bot/src/storage.rs: an
    in-memory map from chat id to language, loaded at start-up from a text file
    of `"<id> <language>\n"` lines and periodically written back in the same
    format. */
module Storage {
  import opened Common
  import opened Decimal
  import Utf8

  type Db = map<int64, string>

  // ---------------------------------------------------------------------------
  // Text helpers: `str::find` and `str::split`
  // ---------------------------------------------------------------------------

  /** Position of the first `c` in `s`, or `|s|` when `s` has none. */
  function IndexOf(s: string, c: char): (i: nat)
    ensures i <= |s|
    ensures i < |s| ==> s[i] == c
    ensures forall j :: 0 <= j < i ==> s[j] != c
  {
    if s == [] then 0 else if s[0] == c then 0 else 1 + IndexOf(s[1..], c)
  }

  lemma IndexOfAt(s: string, c: char, i: nat)
    requires i <= |s| && (i < |s| ==> s[i] == c)
    requires forall j :: 0 <= j < i ==> s[j] != c
    ensures IndexOf(s, c) == i
  {
  }

  /** `s.split('\n')`: the pieces between newlines, in order, including an empty
      piece after a final newline. */
  function Split(s: string): (parts: seq<string>)
    ensures |parts| > 0
    ensures forall i :: 0 <= i < |parts| ==> '\n' !in parts[i]
    decreases |s|
  {
    var i := IndexOf(s, '\n');
    if i == |s| then [s] else [s[..i]] + Split(s[i + 1..])
  }

  /** The pieces with a newline between each two: what `split` takes apart. */
  function Join(parts: seq<string>): string
    requires |parts| > 0
  {
    if |parts| == 1 then parts[0] else parts[0] + "\n" + Join(parts[1..])
  }

  lemma SplitCons(line: string, rest: string)
    requires '\n' !in line
    ensures Split(line + "\n" + rest) == [line] + Split(rest)
  {
    var s := line + "\n" + rest;
    assert s[|line|] == '\n';
    assert IndexOf(s, '\n') == |line|;
    assert s[..|line|] == line && s[|line| + 1..] == rest;
  }

  /** Splitting and joining undo each other, in both orders. */
  lemma {:induction false} JoinSplit(s: string)
    ensures Join(Split(s)) == s
    decreases |s|
  {
    var i := IndexOf(s, '\n');
    if i < |s| {
      JoinSplit(s[i + 1..]);
      assert s == s[..i] + "\n" + s[i + 1..];
    }
  }

  lemma {:induction false} SplitJoin(parts: seq<string>)
    requires |parts| > 0
    requires forall i :: 0 <= i < |parts| ==> '\n' !in parts[i]
    ensures Split(Join(parts)) == parts
  {
    if |parts| == 1 {
      assert IndexOf(parts[0], '\n') == |parts[0]|;
    } else {
      SplitJoin(parts[1..]);
      SplitCons(parts[0], Join(parts[1..]));
    }
  }

  /** Splitting at one newline splits both sides independently. */
  lemma {:induction false} SplitAppend(a: string, b: string)
    ensures Split(a + "\n" + b) == Split(a) + Split(b)
    decreases |a|
  {
    var i := IndexOf(a, '\n');
    if i == |a| {
      SplitCons(a, b);
    } else {
      var s := a + "\n" + b;
      assert s[..i] == a[..i] && s[i] == a[i];
      IndexOfAt(s, '\n', i);
      assert s[i + 1..] == a[i + 1..] + "\n" + b;
      SplitAppend(a[i + 1..], b);
    }
  }

  // ---------------------------------------------------------------------------
  // The file format: `db_to_string`
  // ---------------------------------------------------------------------------

  /** One entry as `format!("{} {}", id, lang)` writes it, without the newline. */
  function EntryLine(id: int64, lang: string): string {
    FormatI64(id) + " " + lang
  }

  /** `order` lists each key of the map exactly once (one iteration order of the HashMap). */
  predicate IsEnumeration(order: seq<int64>, keys: set<int64>) {
    && (forall i, j :: 0 <= i < j < |order| ==> order[i] != order[j])
    && (forall k :: k in order <==> k in keys)
  }

  predicate Covers(db: Db, order: seq<int64>) {
    forall i :: 0 <= i < |order| ==> order[i] in db
  }

  /** Lines, each followed by a newline. */
  function Terminated(lines: seq<string>): string {
    if lines == [] then "" else lines[0] + "\n" + Terminated(lines[1..])
  }

  /** The lines `db_to_string` writes, one per key in `order`, without their newlines. */
  function EntryLines(db: Db, order: seq<int64>): (lines: seq<string>)
    requires Covers(db, order)
    ensures |lines| == |order|
    ensures forall i :: 0 <= i < |order| ==> lines[i] == EntryLine(order[i], db[order[i]])
  {
    if order == [] then [] else [EntryLine(order[0], db[order[0]])] + EntryLines(db, order[1..])
  }

  /** The text `db_to_string` produces when the map yields its keys in `order`. */
  function Serialize(db: Db, order: seq<int64>): string
    requires Covers(db, order)
  {
    Terminated(EntryLines(db, order))
  }

  lemma {:induction false} TerminatedSnoc(lines: seq<string>, line: string)
    ensures Terminated(lines + [line]) == Terminated(lines) + line + "\n"
  {
    if lines == [] {
      assert [] + [line] == [line] && [line][1..] == [];
    } else {
      assert (lines + [line])[0] == lines[0] && (lines + [line])[1..] == lines[1..] + [line];
      TerminatedSnoc(lines[1..], line);
    }
  }

  lemma SerializeAppend(db: Db, order: seq<int64>, k: int64)
    requires Covers(db, order) && k in db
    ensures Covers(db, order + [k])
    ensures Serialize(db, order + [k]) == Serialize(db, order) + EntryLine(k, db[k]) + "\n"
  {
    assert Covers(db, order + [k]) by {
      forall i | 0 <= i < |order + [k]| ensures (order + [k])[i] in db {
        if i < |order| { assert (order + [k])[i] == order[i]; }
      }
    }
    var lines := EntryLines(db, order);
    assert EntryLines(db, order + [k]) == lines + [EntryLine(k, db[k])];
    TerminatedSnoc(lines, EntryLine(k, db[k]));
  }

  /** `db_to_string`: one `"<id> <lang>\n"` line per entry, in the map's
      iteration order, which the ghost `order` records. */
  method DbToString(db: Db) returns (text: string, ghost order: seq<int64>)
    ensures IsEnumeration(order, db.Keys)
    ensures text == Serialize(db, order)
  {
    text := "";
    order := [];
    var rest := db.Keys;
    while rest != {}
      invariant rest <= db.Keys
      invariant forall k :: k in db ==> (k in rest <==> k !in order)
      invariant Covers(db, order)
      invariant forall i, j :: 0 <= i < j < |order| ==> order[i] != order[j]
      invariant text == Serialize(db, order)
      decreases |rest|
    {
      var k :| k in rest;
      SerializeAppend(db, order, k);
      text := text + EntryLine(k, db[k]) + "\n";
      order := order + [k];
      rest := rest - {k};
    }
  }

  /** A repetition-free listing of a set is as long as the set is large. */
  lemma {:induction false} EnumerationSize(order: seq<int64>, keys: set<int64>)
    requires IsEnumeration(order, keys)
    ensures |order| == |keys|
  {
    if order != [] {
      var rest := keys - {order[0]};
      forall k ensures k in order[1..] <==> k in rest {
        if k in order[1..] {
          var j :| 1 <= j < |order| && order[j] == k;
          assert order[0] != order[j];
        }
        if k in order && k != order[0] {
          var j :| 0 <= j < |order| && order[j] == k;
          assert order[1..][j - 1] == k;
        }
      }
      EnumerationSize(order[1..], rest);
    }
  }

  predicate NoNewlines(db: Db) {
    forall k :: k in db ==> '\n' !in db[k]
  }

  lemma EntryLineHasNoNewline(id: int64, lang: string)
    requires '\n' !in lang
    ensures '\n' !in EntryLine(id, lang)
  {
    FormatI64Characters(id);
    var line := EntryLine(id, lang);
    forall i | 0 <= i < |line| ensures line[i] != '\n' {
      if i > |FormatI64(id)| {
        assert line[i] == lang[i - |FormatI64(id)| - 1];
      }
    }
  }

  /** The serialised text splits into exactly one line per entry, then the empty
      piece after the last newline. */
  lemma {:induction false} SplitTerminated(lines: seq<string>)
    requires forall i :: 0 <= i < |lines| ==> '\n' !in lines[i]
    ensures Split(Terminated(lines)) == lines + [""]
  {
    if lines == [] {
      assert IndexOf("", '\n') == 0;
    } else {
      SplitCons(lines[0], Terminated(lines[1..]));
      SplitTerminated(lines[1..]);
      assert lines == [lines[0]] + lines[1..];
    }
  }

  lemma SplitSerialize(db: Db, order: seq<int64>)
    requires Covers(db, order) && NoNewlines(db)
    ensures Split(Serialize(db, order)) == EntryLines(db, order) + [""]
  {
    var lines := EntryLines(db, order);
    forall i | 0 <= i < |lines| ensures '\n' !in lines[i] {
      EntryLineHasNoNewline(order[i], db[order[i]]);
    }
    SplitTerminated(lines);
  }

  /** `db_to_string` writes as many lines as the map has entries, each the
      decimal id, one space and the language. */
  lemma SerializeLineCount(db: Db, order: seq<int64>)
    requires IsEnumeration(order, db.Keys) && NoNewlines(db)
    ensures |order| == |db|
    ensures |Split(Serialize(db, order))| == |db| + 1
    ensures forall i :: 0 <= i < |db| ==> Split(Serialize(db, order))[i] == EntryLine(order[i], db[order[i]])
    ensures Split(Serialize(db, order))[|db|] == ""
  {
    EnumerationSize(order, db.Keys);
    SplitSerialize(db, order);
  }

  // ---------------------------------------------------------------------------
  // Parsing: `db_from_string`
  // ---------------------------------------------------------------------------

  /** Why loading fails: an I/O error of `Storage::new`, or one of the two
      `unwrap` panics of `db_from_string`. */
  datatype LoadError =
    | IoFailed(kind: IoErrorKind)     // `?` on File::open / read_to_string
    | MissingSeparator(line: string)  // `line.find(' ').unwrap()` on a line without a space
    | InvalidChatId(text: string)     // `i64::from_str(chat_id).unwrap()` on a bad id

  /** One non-empty line: split at the first space; the left part is the id,
      everything after that space (further spaces included) the language. */
  function ParseLine(line: string): Result<(int64, string), LoadError> {
    var i := IndexOf(line, ' ');
    if i == |line| then Failure(MissingSeparator(line))
    else
      var id := line[..i];
      match ParseI64(id)
      case None => Failure(InvalidChatId(id))
      case Some(chatId) => Success((chatId, line[i + 1..]))
  }

  /** What `ParseLine` accepts: a line with no space is a missing separator; a
      line that parses is an id text without spaces, one space, and the language,
      and the id text is valid decimal; otherwise the text before the first space
      is an invalid id. */
  lemma ParseLineMeaning(line: string)
    ensures ParseLine(line) == Failure(MissingSeparator(line)) <==> ' ' !in line
    ensures ParseLine(line).Success? ==>
              var lang := ParseLine(line).value.1;
              var n := |line| - |lang| - 1;
              && 0 <= n
              && line == line[..n] + " " + lang
              && ' ' !in line[..n]
              && ParseI64(line[..n]) == Some(ParseLine(line).value.0)
    ensures ParseLine(line).Failure? && ' ' in line ==>
              ParseLine(line).error == InvalidChatId(line[..IndexOf(line, ' ')])
    ensures ' ' in line && ParseI64(line[..IndexOf(line, ' ')]).Some? ==>
              ParseLine(line) == Success((ParseI64(line[..IndexOf(line, ' ')]).value, line[IndexOf(line, ' ') + 1..]))
  {
    var i := IndexOf(line, ' ');
    if i < |line| {
      assert line == line[..i] + " " + line[i + 1..];
    }
  }

  /** Any text `i64::from_str` accepts is a valid id, including forms `db_to_string`
      never writes: a leading '+'. */
  lemma PlusSignAccepted()
    ensures ParseLine("+5 ru") == Success((5, "ru"))
  {
    var line := "+5 ru";
    assert IndexOf(line, ' ') == 2 by { IndexOfAt(line, ' ', 2); }
    assert line[..2] == "+5" && line[3..] == "ru";
    assert ParseI64("+5") == Some(5) by {
      assert "+5"[1..] == "5";
      assert "5"[..0] == "";
    }
  }

  /** Leading zeros are accepted too, and the language keeps its own spaces. */
  lemma LeadingZerosAccepted()
    ensures ParseLine("007 en US") == Success((7, "en US"))
  {
    var line := "007 en US";
    assert IndexOf(line, ' ') == 3 by { IndexOfAt(line, ' ', 3); }
    assert line[..3] == "007" && line[4..] == "en US";
    assert ParseI64("007") == Some(7) by {
      assert "007"[..2] == "00" && "00"[..1] == "0" && "0"[..0] == "";
    }
  }

  /** A character other than a digit in the id makes it invalid. */
  lemma NonDigitIdRejected()
    ensures ParseLine("5x ru") == Failure(InvalidChatId("5x"))
  {
    var line := "5x ru";
    assert IndexOf(line, ' ') == 2 by { IndexOfAt(line, ' ', 2); }
    assert line[..2] == "5x";
    assert !IsDigit("5x"[1]);
  }

  /** Inserting the non-empty lines into `acc` one after another; the first bad line aborts. */
  function InsertLines(acc: Db, lines: seq<string>): Result<Db, LoadError>
    decreases |lines|
  {
    if lines == [] then Success(acc)
    else if lines[0] == "" then InsertLines(acc, lines[1..])
    else
      match ParseLine(lines[0])
      case Failure(e) => Failure(e)
      case Success((id, lang)) => InsertLines(acc[id := lang], lines[1..])
  }

  /** What `db_from_string` computes from a whole file. */
  function ParseDb(text: string): Result<Db, LoadError> {
    InsertLines(map[], Split(text))
  }

  /** `db_from_string`: a loop over the lines of the text that skips the empty
      ones and inserts each parsed line into the map being built. */
  method DbFromString(text: string) returns (r: Result<Db, LoadError>)
    ensures r == ParseDb(text)
  {
    var lines := Split(text);
    var response: Db := map[];
    var i := 0;
    while i < |lines|
      invariant 0 <= i <= |lines|
      invariant InsertLines(response, lines[i..]) == InsertLines(map[], lines)
    {
      assert lines[i..][1..] == lines[i + 1..];
      var line := lines[i];
      if line != "" {
        var parsed := ParseLine(line);
        if parsed.Failure? {
          return Failure(parsed.error);
        }
        response := response[parsed.value.0 := parsed.value.1];
      }
      i := i + 1;
    }
    assert lines[i..] == [];
    r := Success(response);
  }

  /** Any value may follow the id, spaces included: the split is at the first space. */
  lemma ParseEntryLine(id: int64, lang: string)
    ensures ParseLine(EntryLine(id, lang)) == Success((id, lang))
  {
    var line := EntryLine(id, lang);
    var f := FormatI64(id);
    FormatI64Characters(id);
    assert line[|f|] == ' ';
    assert IndexOf(line, ' ') == |f|;
    assert line[..|f|] == f && line[|f| + 1..] == lang;
    ParseFormatI64(id);
  }

  /** `acc` with the entries of `db` for the keys of `order` written over it, in order. */
  function Overlay(acc: Db, db: Db, order: seq<int64>): Db
    requires Covers(db, order)
    decreases |order|
  {
    if order == [] then acc else Overlay(acc[order[0] := db[order[0]]], db, order[1..])
  }

  /** Overlaying changes exactly the listed keys, to their values in `db`. */
  lemma {:induction false} OverlayAt(acc: Db, db: Db, order: seq<int64>, k: int64)
    requires Covers(db, order)
    ensures k in Overlay(acc, db, order) <==> k in acc || k in order
    ensures k in Overlay(acc, db, order) ==> Overlay(acc, db, order)[k] == if k in order then db[k] else acc[k]
    decreases |order|
  {
    if order != [] {
      OverlayAt(acc[order[0] := db[order[0]]], db, order[1..], k);
      assert k in order <==> k == order[0] || k in order[1..];
    }
  }

  /** Inserting the lines of `Serialize(db, order)` overlays `db`'s entries on `acc`. */
  lemma {:induction false} InsertEntryLines(acc: Db, db: Db, order: seq<int64>)
    requires Covers(db, order) && NoNewlines(db)
    ensures InsertLines(acc, EntryLines(db, order) + [""]) == Success(Overlay(acc, db, order))
    decreases |order|
  {
    var lines := EntryLines(db, order) + [""];
    if order == [] {
      assert lines == [""] + [];
      InsertLinesEmpty(acc, []);
    } else {
      var k := order[0];
      var rest := EntryLines(db, order[1..]) + [""];
      ParseEntryLine(k, db[k]);
      assert lines == [EntryLine(k, db[k])] + rest;
      InsertLinesStep(acc, EntryLine(k, db[k]), rest);
      InsertEntryLines(acc[k := db[k]], db, order[1..]);
    }
  }

  /** Round trip of the file format: parsing what `db_to_string` wrote gives the
      same map back, for any iteration order, negative ids and empty languages
      included, as long as no language contains a newline. */
  lemma RoundTrip(db: Db, order: seq<int64>)
    requires IsEnumeration(order, db.Keys) && NoNewlines(db)
    ensures ParseDb(Serialize(db, order)) == Success(db)
  {
    var text := Serialize(db, order);
    SplitSerialize(db, order);
    assert ParseDb(text) == InsertLines(map[], EntryLines(db, order) + [""]);
    InsertEntryLines(map[], db, order);
    OverlayEnumeration(db, order);
  }

  lemma OverlayEnumeration(db: Db, order: seq<int64>)
    requires IsEnumeration(order, db.Keys)
    ensures Overlay(map[], db, order) == db
  {
    var m := Overlay(map[], db, order);
    forall k ensures (k in m <==> k in db) && (k in m ==> m[k] == db[k]) {
      OverlayAt(map[], db, order, k);
    }
    assert m.Keys == db.Keys;
  }

  /** A language containing a newline breaks the round trip: its second half is
      a line without a space, and loading fails. */
  lemma NewlineInLanguageBreaksRoundTrip()
    ensures ParseDb(Serialize(map[7 := "ru\nRU"], [7])) == Failure(MissingSeparator("RU"))
  {
    var db: Db := map[7 := "ru\nRU"];
    var first := EntryLine(7, "ru");
    assert FormatI64(7) == "7";
    assert Serialize(db, [7]) == first + "\n" + ("RU" + "\n" + "");
    assert IndexOf(first, '\n') == |first|;
    SplitCons(first, "RU" + "\n" + "");
    SplitCons("RU", "");
    assert IndexOf("", '\n') == 0;
    ParseEntryLine(7, "ru");
    assert IndexOf("RU", ' ') == 2;
  }

  lemma {:induction false} InsertLinesAppend(acc: Db, l1: seq<string>, l2: seq<string>)
    decreases |l1|
    ensures InsertLines(acc, l1 + l2) ==
              match InsertLines(acc, l1)
              case Failure(e) => Failure(e)
              case Success(m) => InsertLines(m, l2)
  {
    if l1 == [] {
      assert l1 + l2 == l2;
    } else {
      assert (l1 + l2)[0] == l1[0] && (l1 + l2)[1..] == l1[1..] + l2;
      if l1[0] == "" {
        InsertLinesAppend(acc, l1[1..], l2);
      } else if ParseLine(l1[0]).Success? {
        InsertLinesAppend(acc[ParseLine(l1[0]).value.0 := ParseLine(l1[0]).value.1], l1[1..], l2);
      }
    }
  }

  /** An empty line is skipped. */
  lemma InsertLinesEmpty(acc: Db, rest: seq<string>)
    ensures InsertLines(acc, [""] + rest) == InsertLines(acc, rest)
  {
    assert ([""] + rest)[1..] == rest;
  }

  /** A line that parses is inserted, then the rest is processed. */
  lemma InsertLinesStep(acc: Db, line: string, rest: seq<string>)
    requires line != "" && ParseLine(line).Success?
    ensures InsertLines(acc, [line] + rest) ==
              InsertLines(acc[ParseLine(line).value.0 := ParseLine(line).value.1], rest)
  {
    assert ([line] + rest)[0] == line && ([line] + rest)[1..] == rest;
  }

  /** Parsing text joined at a newline parses the first part, then continues
      with the second part's lines on top of the map built so far. */
  lemma ParseDbConcat(a: string, b: string)
    ensures ParseDb(a + "\n" + b) ==
              match ParseDb(a)
              case Failure(e) => Failure(e)
              case Success(m) => InsertLines(m, Split(b))
  {
    SplitAppend(a, b);
    InsertLinesAppend(map[], Split(a), Split(b));
  }

  /** Empty lines are skipped, at the start and at the end of the text alike. */
  lemma EmptyLinesIgnored(text: string)
    ensures ParseDb("\n" + text) == ParseDb(text)
    ensures ParseDb(text + "\n") == ParseDb(text)
  {
    assert IndexOf("", '\n') == 0;
    ParseDbConcat("", text);
    assert "" + "\n" + text == "\n" + text;
    ParseDbConcat(text, "");
    assert text + "\n" + "" == text + "\n";
  }

  /** A text of one non-empty line loads as that line's single entry. */
  lemma ParseDbSingleLine(line: string)
    requires line != "" && '\n' !in line
    ensures ParseDb(line) ==
              match ParseLine(line)
              case Failure(e) => Failure(e)
              case Success((id, lang)) => Success(map[id := lang])
  {
    assert IndexOf(line, '\n') == |line|;
    assert Split(line) == [line];
    if ParseLine(line).Success? {
      InsertLinesStep(map[], line, []);
      assert [line] + [] == [line];
    }
  }

  /** A later line for an id overrides what earlier lines said about it. */
  lemma LaterLineWins(text: string, id: int64, lang: string)
    requires ParseDb(text).Success? && '\n' !in lang
    ensures ParseDb(text + "\n" + EntryLine(id, lang)) == Success(ParseDb(text).value[id := lang])
  {
    ParseDbConcat(text, EntryLine(id, lang));
    EntryLineHasNoNewline(id, lang);
    FormatI64Characters(id);
    assert IndexOf(EntryLine(id, lang), '\n') == |EntryLine(id, lang)|;
    ParseEntryLine(id, lang);
  }

  /** Two lines for the same id: the later one is kept. */
  lemma DuplicateIdKeepsLast(id: int64, first: string, second: string)
    requires '\n' !in first && '\n' !in second
    ensures ParseDb(EntryLine(id, first) + "\n" + EntryLine(id, second)) == Success(map[id := second])
  {
    EntryLineHasNoNewline(id, first);
    ParseEntryLine(id, first);
    ParseDbSingleLine(EntryLine(id, first));
    LaterLineWins(EntryLine(id, first), id, second);
    assert map[id := first][id := second] == map[id := second];
  }

  predicate LineParses(line: string) {
    line == "" || ParseLine(line).Success?
  }

  /** Inserting lines succeeds exactly when every line is empty or parses; on
      failure the error is that of the first line that does not. */
  lemma {:induction false} InsertLinesOutcome(acc: Db, lines: seq<string>)
    ensures InsertLines(acc, lines).Success? <==> forall j :: 0 <= j < |lines| ==> LineParses(lines[j])
    ensures InsertLines(acc, lines).Failure? ==>
              exists i :: 0 <= i < |lines| && !LineParses(lines[i]) &&
                          (forall j :: 0 <= j < i ==> LineParses(lines[j])) &&
                          InsertLines(acc, lines).error == ParseLine(lines[i]).error
    decreases |lines|
  {
    if lines != [] {
      var next := if lines[0] == "" then acc else if ParseLine(lines[0]).Success? then
        acc[ParseLine(lines[0]).value.0 := ParseLine(lines[0]).value.1] else acc;
      InsertLinesOutcome(next, lines[1..]);
      assert forall j :: 0 < j < |lines| ==> lines[j] == lines[1..][j - 1];
      if !LineParses(lines[0]) {
        assert InsertLines(acc, lines).error == ParseLine(lines[0]).error;
      } else if InsertLines(acc, lines).Failure? {
        var i :| 0 <= i < |lines[1..]| && !LineParses(lines[1..][i]) &&
                 (forall j :: 0 <= j < i ==> LineParses(lines[1..][j])) &&
                 InsertLines(next, lines[1..]).error == ParseLine(lines[1..][i]).error;
        assert !LineParses(lines[i + 1]);
        forall j | 0 <= j < i + 1 ensures LineParses(lines[j]) {
          if j > 0 { assert lines[j] == lines[1..][j - 1]; }
        }
      }
    }
  }

  /** The parser is strict: a file loads exactly when each of its non-empty lines
      has a space with a valid decimal `i64` before it; otherwise the first line
      that does not decides the error. */
  lemma ParseDbSucceedsIff(text: string)
    ensures ParseDb(text).Success? <==> forall j :: 0 <= j < |Split(text)| ==> LineParses(Split(text)[j])
    ensures ParseDb(text).Failure? ==>
              exists i :: 0 <= i < |Split(text)| && !LineParses(Split(text)[i]) &&
                          (forall j :: 0 <= j < i ==> LineParses(Split(text)[j])) &&
                          ParseDb(text).error == ParseLine(Split(text)[i]).error
  {
    assert ParseDb(text) == InsertLines(map[], Split(text));
    InsertLinesOutcome(map[], Split(text));
  }

  // ---------------------------------------------------------------------------
  // Start-up and the store
  // ---------------------------------------------------------------------------

  /** What `File::open` and `read_to_string`'s byte read yield for the file. */
  datatype OpenResult =
    | Opened(contents: Result<seq<byte>, IoErrorKind>)
    | OpenFailed(kind: IoErrorKind)

  /** The map `Storage::new` starts with: empty when the file does not exist, an
      error for any other open failure or a failed read (bytes that are not UTF-8
      are an `InvalidData` read error), otherwise the file parsed. */
  function Load(file: OpenResult): Result<Db, LoadError> {
    match file
    case OpenFailed(kind) => if kind == NotFound then Success(map[]) else Failure(IoFailed(kind))
    case Opened(Failure(kind)) => Failure(IoFailed(kind))
    case Opened(Success(bytes)) =>
      match Utf8.Decode(bytes)
      case None => Failure(IoFailed(InvalidData))
      case Some(text) => ParseDb(text)
  }

  /** A missing file is not an error: the store starts empty. */
  lemma LoadMissingFile()
    ensures Load(OpenFailed(NotFound)) == Success(map[])
  {
  }

  /** Any other open error is returned, not swallowed. */
  lemma LoadOpenError(kind: IoErrorKind)
    requires kind != NotFound
    ensures Load(OpenFailed(kind)) == Failure(IoFailed(kind))
  {
  }

  /** Persistence round trip: a file holding the bytes of a snapshot loads as
      the map the snapshot was taken of. */
  lemma LoadSnapshot(db: Db, order: seq<int64>)
    requires IsEnumeration(order, db.Keys) && NoNewlines(db)
    ensures Load(Opened(Success(Utf8.Encode(Serialize(db, order))))) == Success(db)
  {
    Utf8.DecodeEncode(Serialize(db, order));
    RoundTrip(db, order);
  }

  /** `Storage`: the shared map behind its lock. The lock and the sync thread are
      not modelled; each method is one critical section. */
  class Storage {
    var db: Db

    constructor (initial: Db)
      ensures db == initial
    {
      db := initial;
    }

    /** `put`: insert, overwriting any earlier language of this chat. */
    method Put(chatId: int64, lang: string)
      modifies this
      ensures db == old(db)[chatId := lang]
      ensures chatId in db && db[chatId] == lang
      ensures forall k :: k != chatId ==> (k in db <==> k in old(db)) && (k in db ==> db[k] == old(db)[k])
    {
      db := db[chatId := lang];
    }

    /** `get`: the stored language, or None for a chat never put or loaded. */
    method Get(chatId: int64) returns (r: Option<string>)
      ensures r.Some? <==> chatId in db
      ensures r.Some? ==> r.value == db[chatId]
    {
      if chatId in db {
        r := Some(db[chatId]);
      } else {
        r := None;
      }
    }

    /** One cycle of the sync thread: the bytes it writes are the UTF-8 of
        `db_to_string` of the whole current map. */
    method Snapshot() returns (bytes: seq<byte>, ghost order: seq<int64>)
      ensures IsEnumeration(order, db.Keys)
      ensures bytes == Utf8.Encode(Serialize(db, order))
    {
      var text;
      text, order := DbToString(db);
      bytes := Utf8.Encode(text);
    }
  }

  /** `Storage::new`: the open/read branch, then `db_from_string`. */
  method New(file: OpenResult) returns (r: Result<Storage, LoadError>)
    ensures r.Success? <==> Load(file).Success?
    ensures r.Failure? ==> r.error == Load(file).error
    ensures r.Success? ==> fresh(r.value) && r.value.db == Load(file).value
  {
    var db: Db;
    match file {
      case OpenFailed(kind) =>
        if kind != NotFound {
          return Failure(IoFailed(kind));
        }
        db := map[];
      case Opened(contents) =>
        if contents.Failure? {
          return Failure(IoFailed(contents.error));
        }
        var text := Utf8.Decode(contents.value);
        if text.None? {
          return Failure(IoFailed(InvalidData));
        }
        var parsed := DbFromString(text.value);
        if parsed.Failure? {
          return Failure(parsed.error);
        }
        db := parsed.value;
    }
    var s := new Storage(db);
    r := Success(s);
  }

  // ---------------------------------------------------------------------------
  // Many writers
  // ---------------------------------------------------------------------------

  /** The map after a series of `put`s, in the order their write locks were taken. */
  function ApplyPuts(db: Db, puts: seq<(int64, string)>): Db
    decreases |puts|
  {
    if puts == [] then db else ApplyPuts(db[puts[0].0 := puts[0].1], puts[1..])
  }

  /** The language of the last `put` for `id` in the series, if any. */
  function LastPut(puts: seq<(int64, string)>, id: int64): Option<string> {
    if puts == [] then None
    else if puts[|puts| - 1].0 == id then Some(puts[|puts| - 1].1)
    else LastPut(puts[..|puts| - 1], id)
  }

  /** Last write wins: after any series of puts, an id holds the language of the
      last put for it, and ids nobody put keep what they had. */
  lemma {:induction false} ApplyPutsLastWins(db: Db, puts: seq<(int64, string)>, id: int64)
    ensures LastPut(puts, id).Some? ==> id in ApplyPuts(db, puts) && ApplyPuts(db, puts)[id] == LastPut(puts, id).value
    ensures LastPut(puts, id).None? ==>
              (id in ApplyPuts(db, puts) <==> id in db) &&
              (id in db ==> ApplyPuts(db, puts)[id] == db[id])
    decreases |puts|
  {
    if puts != [] {
      var n := |puts| - 1;
      ApplyPutsSnoc(db, puts[..n], puts[n]);
      assert puts[..n] + [puts[n]] == puts;
      ApplyPutsLastWins(db, puts[..n], id);
    }
  }

  /** Puts applied to the store one after another, as the lock serialises
      concurrent writers: the store ends up holding `ApplyPuts` of the series. */
  method PutAll(s: Storage, puts: seq<(int64, string)>)
    modifies s
    ensures s.db == ApplyPuts(old(s.db), puts)
  {
    var i := 0;
    while i < |puts|
      invariant 0 <= i <= |puts|
      invariant s.db == ApplyPuts(old(s.db), puts[..i])
    {
      ApplyPutsSnoc(old(s.db), puts[..i], puts[i]);
      assert puts[..i + 1] == puts[..i] + [puts[i]];
      s.Put(puts[i].0, puts[i].1);
      i := i + 1;
    }
    assert puts[..i] == puts;
  }

  lemma {:induction false} ApplyPutsSnoc(db: Db, puts: seq<(int64, string)>, p: (int64, string))
    ensures ApplyPuts(db, puts + [p]) == ApplyPuts(db, puts)[p.0 := p.1]
    decreases |puts|
  {
    if puts != [] {
      assert (puts + [p])[1..] == puts[1..] + [p];
      ApplyPutsSnoc(db[puts[0].0 := puts[0].1], puts[1..], p);
    }
  }
}
