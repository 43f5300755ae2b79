/** The whitespace rules of `str::trim`. */
module Text {

  /** Unicode White_Space, which is what Rust trims. */
  predicate IsWhite(c: char) {
    || '\U{9}' <= c <= '\U{d}' || c == ' ' || c == '\U{85}' || c == '\U{a0}' || c == '\U{1680}'
    || '\U{2000}' <= c <= '\U{200a}' || c == '\U{2028}' || c == '\U{2029}' || c == '\U{202f}'
    || c == '\U{205f}' || c == '\U{3000}'
  }

  function TrimStart(s: string): string {
    if s != [] && IsWhite(s[0]) then TrimStart(s[1..]) else s
  }

  function TrimEnd(s: string): string {
    if s != [] && IsWhite(s[|s| - 1]) then TrimEnd(s[..|s| - 1]) else s
  }

  function Trim(s: string): string {
    TrimEnd(TrimStart(s))
  }

  // ---- What trimming is ----

  /** The code points of Unicode White_Space, one by one. */
  lemma WhiteMeaning(c: char)
    ensures IsWhite(c) <==> c as int in {
              9, 10, 11, 12, 13, 32, 133, 160, 5760, 8192, 8193, 8194, 8195, 8196, 8197, 8198, 8199, 8200, 8201, 8202,
              8232, 8233, 8239, 8287, 12288}
  {
  }

  predicate AllWhite(s: string) { forall i | 0 <= i < |s| :: IsWhite(s[i]) }

  lemma {:induction false} TrimStartMeaning(s: string) returns (i: nat)
    ensures i <= |s| && TrimStart(s) == s[i..] && AllWhite(s[..i]) && (i < |s| ==> !IsWhite(s[i]))
  {
    if s != [] && IsWhite(s[0]) {
      var j := TrimStartMeaning(s[1..]);
      i := j + 1;
      assert s[1..][j..] == s[i..] && s[..i] == [s[0]] + s[1..][..j];
    } else {
      i := 0;
    }
  }

  lemma {:induction false} TrimEndMeaning(s: string) returns (j: nat)
    ensures j <= |s| && TrimEnd(s) == s[..j] && AllWhite(s[j..]) && (j > 0 ==> !IsWhite(s[j - 1]))
  {
    if s != [] && IsWhite(s[|s| - 1]) {
      var n := |s| - 1;
      j := TrimEndMeaning(s[..n]);
      assert s[..n][..j] == s[..j] && s[j..] == s[..n][j..] + [s[n]];
    } else {
      j := |s|;
    }
  }

  /** What is left is what stands between two runs of white space, and neither begins nor
      ends with any. */
  lemma TrimMeaning(s: string) returns (i: nat, j: nat)
    ensures i <= j <= |s| && Trim(s) == s[i..j] && AllWhite(s[..i]) && AllWhite(s[j..])
    ensures i < j ==> !IsWhite(s[i]) && !IsWhite(s[j - 1])
  {
    i := TrimStartMeaning(s);
    var n := TrimEndMeaning(s[i..]);
    j := i + n;
    assert s[i..][..n] == s[i..j] && s[i..][n..] == s[j..];
    assert n > 0 ==> s[i..][n - 1] == s[j - 1];
  }

  lemma TrimsToNothing(s: string)
    ensures Trim(s) == "" <==> AllWhite(s)
  {
    var i, j := TrimMeaning(s);
    assert |s[i..j]| == j - i;
    assert i == j ==> s == s[..i] + s[j..];
  }

  /** So trimming changes nothing exactly when neither end is white space. */
  lemma TrimKeeps(s: string)
    ensures Trim(s) == s <==> s == "" || (!IsWhite(s[0]) && !IsWhite(s[|s| - 1]))
  {
    var i, j := TrimMeaning(s);
    if i > 0 { assert s[..i][0] == s[0]; }
    if j < |s| { assert s[j..][|s| - 1 - j] == s[|s| - 1]; }
    assert s[0..|s|] == s;
    assert |s[i..j]| == j - i;
  }
}

/** The csv columns that hold a list: a printer that quotes what would be
    ambiguous, and the character reader that undoes it. */
module Csv {
  import opened Text

  predicate NeedsQuoting(value: string) {
    ',' in value || '"' in value || Trim(value) != value
  }

  /** `value` with every quote doubled. */
  function Doubled(value: string): string {
    if value == [] then ""
    else (if value[0] == '"' then "\"\"" else [value[0]]) + Doubled(value[1..])
  }

  function Encode(value: string): string {
    if NeedsQuoting(value) then "\"" + Doubled(value) + "\"" else value
  }

  /** One csv field per value. */
  function Join(values: seq<string>): string {
    if values == [] then ""
    else if |values| == 1 then Encode(values[0])
    else Encode(values[0]) + "," + Join(values[1..])
  }

  /** Where the reader stands between two characters. */
  datatype Reader = Reader(values: seq<string>, field: string, quoted: bool, insideQuotes: bool)

  const START := Reader([], "", false, false)

  function Push(values: seq<string>, field: string, quoted: bool): seq<string> {
    var value := if quoted then field else Trim(field);
    if value == "" then values else values + [value]
  }

  /** What reading the rest of the text from `at` yields. */
  function Read(at: Reader, text: string): seq<string>
    decreases |text|
  {
    if text == "" then Push(at.values, at.field, at.quoted)
    else if text[0] == '"' && at.insideQuotes then
      if |text| > 1 && text[1] == '"' then Read(at.(field := at.field + "\""), text[2..])
      else Read(at.(insideQuotes := false), text[1..])
    else if text[0] == '"' && at.field == "" && !at.quoted then
      Read(at.(quoted := true, insideQuotes := true), text[1..])
    else if text[0] == ',' && !at.insideQuotes then
      Read(Reader(Push(at.values, at.field, at.quoted), "", false, at.insideQuotes), text[1..])
    else Read(at.(field := at.field + [text[0]]), text[1..])
  }

  /** The reader's loop over a peekable character iterator. */
  method Split(csv: string) returns (values: seq<string>)
    ensures values == Read(START, csv)
  {
    values := [];
    var field, quoted, insideQuotes := "", false, false;
    var next := 0;
    while next < |csv|
      invariant 0 <= next <= |csv|
      invariant Read(Reader(values, field, quoted, insideQuotes), csv[next..]) == Read(START, csv)
    {
      var character := csv[next];
      ghost var rest := csv[next..];
      assert rest[1..] == csv[next + 1..];
      next := next + 1;
      if character == '"' && insideQuotes {
        if next < |csv| && csv[next] == '"' {
          assert rest[2..] == csv[next + 1..];
          next := next + 1;
          field := field + "\"";
        } else {
          insideQuotes := false;
        }
      } else if character == '"' && field == "" && !quoted {
        quoted, insideQuotes := true, true;
      } else if character == ',' && !insideQuotes {
        values, field := Push(values, field, quoted), "";
        quoted := false;
      } else {
        field := field + [character];
      }
    }
    values := Push(values, field, quoted);
  }

  /** The values that carry something. */
  function NonEmpty(values: seq<string>): seq<string> {
    if values == [] then []
    else (if values[0] == "" then [] else [values[0]]) + NonEmpty(values[1..])
  }

  /** A run of plain characters joins the field, wherever the field stands. */
  lemma {:induction false} ReadPlain(at: Reader, plain: string, rest: string)
    requires !at.insideQuotes && ',' !in plain && '"' !in plain
    ensures Read(at, plain + rest) == Read(at.(field := at.field + plain), rest)
    decreases plain
  {
    if plain == "" {
      assert plain + rest == rest && at.field + plain == at.field;
    } else {
      assert (plain + rest)[1..] == plain[1..] + rest;
      ReadPlain(at.(field := at.field + [plain[0]]), plain[1..], rest);
      assert at.field + [plain[0]] + plain[1..] == at.field + plain;
    }
  }

  /** Inside quotes, a doubled text up to its closing quote reads as the text. */
  lemma {:induction false} ReadQuoted(at: Reader, value: string, rest: string)
    requires at.insideQuotes && (rest == "" || rest[0] != '"')
    ensures Read(at, Doubled(value) + "\"" + rest)
         == Read(at.(field := at.field + value, insideQuotes := false), rest)
    decreases value
  {
    var text := Doubled(value) + "\"" + rest;
    if value == "" {
      assert text[1..] == rest && at.field + value == at.field;
    } else {
      var tail := Doubled(value[1..]) + "\"" + rest;
      assert at.field + [value[0]] + value[1..] == at.field + value;
      if value[0] == '"' {
        assert text[0] == '"' && text[1] == '"' && text[2..] == tail;
        ReadQuoted(at.(field := at.field + "\""), value[1..], rest);
      } else {
        assert text[0] == value[0] && text[1..] == tail;
        ReadQuoted(at.(field := at.field + [value[0]]), value[1..], rest);
      }
    }
  }

  /** A quoted value opens the quotes and reads its doubled text. */
  lemma ReadQuotedValue(values: seq<string>, value: string, rest: string)
    requires NeedsQuoting(value) && (rest == "" || rest[0] == ',')
    ensures Read(Between(values), Encode(value) + rest) == Read(Reader(values, value, true, false), rest)
  {
    var inside := Doubled(value) + "\"" + rest;
    Regroup("\"", Doubled(value) + "\"", rest);
    Regroup("\"", Doubled(value), "\"");
    assert Encode(value) + rest == "\"" + inside;
    OpensQuotes(values, inside);
    ReadQuoted(Reader(values, "", true, true), value, rest);
    assert "" + value == value;
  }

  lemma OpensQuotes(values: seq<string>, inside: string)
    ensures Read(Between(values), "\"" + inside) == Read(Reader(values, "", true, true), inside)
  {
    assert ("\"" + inside)[1..] == inside;
  }

  /** Any other value reads as it stands. */
  lemma ReadPlainValue(values: seq<string>, value: string, rest: string)
    requires !NeedsQuoting(value)
    ensures Read(Between(values), Encode(value) + rest) == Read(Reader(values, value, false, false), rest)
  {
    ReadPlain(Between(values), value, rest);
    assert "" + value == value;
  }

  /** At the end of a field the value is kept, unless it carries nothing. */
  lemma EndsField(values: seq<string>, value: string, quoted: bool, rest: string)
    requires rest == "" || rest[0] == ','
    requires !quoted ==> Trim(value) == value
    ensures Read(Reader(values, value, quoted, false), rest)
         == Read(Between(values + NonEmpty([value])), if rest == "" then "" else rest[1..])
  {
    assert Trim("") == "";
    assert NonEmpty([value]) == if value == "" then [] else [value];
    assert values + [] == values;
  }

  /** One encoded value, followed by the end of the text or a separator. */
  lemma ReadEncoded(values: seq<string>, value: string, rest: string)
    requires rest == "" || rest[0] == ','
    ensures Read(Between(values), Encode(value) + rest)
         == Read(Between(values + NonEmpty([value])), if rest == "" then "" else rest[1..])
  {
    if NeedsQuoting(value) {
      ReadQuotedValue(values, value, rest);
    } else {
      ReadPlainValue(values, value, rest);
    }
    EndsField(values, value, NeedsQuoting(value), rest);
  }

  lemma NonEmptyHead(values: seq<string>)
    requires values != []
    ensures NonEmpty(values) == NonEmpty([values[0]]) + NonEmpty(values[1..])
  {
    assert [values[0]][1..] == [];
  }

  /** The reader between two fields. */
  function Between(values: seq<string>): Reader {
    Reader(values, "", false, false)
  }

  lemma ReadSeparated(values: seq<string>, value: string, text: string, tail: string)
    requires text == Encode(value) + "," + tail
    ensures Read(Between(values), text) == Read(Between(values + NonEmpty([value])), tail)
  {
    var rest := "," + tail;
    assert rest[1..] == tail;
    assert text == Encode(value) + rest;
    ReadEncoded(values, value, rest);
  }

  lemma ReadLast(values: seq<string>, value: string)
    ensures Read(Between(values), Encode(value)) == values + NonEmpty([value])
  {
    ReadEncoded(values, value, "");
    assert Encode(value) + "" == Encode(value);
    assert Trim("") == "";
  }

  lemma Regroup<T>(a: seq<T>, b: seq<T>, c: seq<T>)
    ensures (a + b) + c == a + (b + c)
  {
  }

  lemma {:induction false} ReadJoined(values: seq<string>, more: seq<string>)
    ensures Read(Between(values), Join(more)) == values + NonEmpty(more)
    decreases more
  {
    if more == [] {
      assert Trim("") == "" && values + [] == values;
    } else if |more| == 1 {
      assert more == [more[0]];
      ReadLast(values, more[0]);
    } else {
      var first := NonEmpty([more[0]]);
      ReadSeparated(values, more[0], Join(more), Join(more[1..]));
      ReadJoined(values + first, more[1..]);
      NonEmptyHead(more);
      Regroup(values, first, NonEmpty(more[1..]));
    }
  }

  /** Main result: reading back what was written gives every value that carries
      something, whatever commas, quotes or padding it holds. */
  lemma RoundTrip(values: seq<string>)
    ensures Read(START, Join(values)) == NonEmpty(values)
  {
    ReadJoined([], values);
  }

  lemma {:induction false} NonEmptyKeepsAll(values: seq<string>)
    ensures NonEmpty(values) == values <==> "" !in values
    ensures "" !in NonEmpty(values) && |NonEmpty(values)| <= |values|
  {
    if values != [] {
      NonEmptyKeepsAll(values[1..]);
      assert values == [values[0]] + values[1..];
    }
  }

  /** The list itself comes back exactly when no value is empty. */
  lemma RoundTripIsExact(values: seq<string>)
    ensures Read(START, Join(values)) == values <==> "" !in values
  {
    RoundTrip(values);
    NonEmptyKeepsAll(values);
  }

  lemma JoinIsInjective(a: seq<string>, b: seq<string>)
    requires "" !in a && "" !in b && Join(a) == Join(b)
    ensures a == b
  {
    RoundTripIsExact(a);
    RoundTripIsExact(b);
  }

  lemma {:induction false} ReadsNoEmptyValue(at: Reader, text: string)
    requires "" !in at.values
    ensures "" !in Read(at, text)
    decreases |text|
  {
    if text == "" {
    } else if text[0] == '"' && at.insideQuotes {
      if |text| > 1 && text[1] == '"' {
        ReadsNoEmptyValue(at.(field := at.field + "\""), text[2..]);
      } else {
        ReadsNoEmptyValue(at.(insideQuotes := false), text[1..]);
      }
    } else if text[0] == '"' && at.field == "" && !at.quoted {
      ReadsNoEmptyValue(at.(quoted := true, insideQuotes := true), text[1..]);
    } else if text[0] == ',' && !at.insideQuotes {
      ReadsNoEmptyValue(Reader(Push(at.values, at.field, at.quoted), "", false, false), text[1..]);
    } else {
      ReadsNoEmptyValue(at.(field := at.field + [text[0]]), text[1..]);
    }
  }

  /** Any text at all, malformed quoting included, is read to a list that writing
      and reading again does not change. */
  lemma ReadingNormalises(text: string)
    ensures Read(START, Join(Read(START, text))) == Read(START, text)
  {
    ReadsNoEmptyValue(START, text);
    RoundTripIsExact(Read(START, text));
  }

  /** A value is written as it stands exactly when nothing in it could be read otherwise: no
      comma, no quote, no white space at either end. */
  lemma EncodeMeaning(value: string)
    ensures Encode(value) == value <==>
              ',' !in value && '"' !in value && (value == "" || (!IsWhite(value[0]) && !IsWhite(value[|value| - 1])))
    ensures Encode(value) != value ==> Encode(value) == "\"" + Doubled(value) + "\""
  {
    TrimKeeps(value);
    DoubledIsNoShorter(value);
  }

  lemma {:induction false} DoubledIsNoShorter(value: string)
    ensures |Doubled(value)| >= |value|
  {
    if value != "" { DoubledIsNoShorter(value[1..]); }
  }
}
