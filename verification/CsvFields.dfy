/** The reader of csv columns, against a grammar of every text there is. */
module CsvFields {
  import opened Text
  import opened Csv

  /** What can stand between two separators: a bare text; a quoted one, with what follows
      its closing quote; or one whose quote is never closed. */
  datatype Field = Bare(text: string) | Quoted(inside: string, tail: string) | Open(inside: string)

  function Written(f: Field): string {
    match f
    case Bare(text) => text
    case Quoted(inside, tail) => "\"" + (Doubled(inside) + "\"" + tail)
    case Open(inside) => "\"" + Doubled(inside)
  }

  predicate IsPlain(text: string) { ',' !in text && (text == "" || text[0] != '"') }

  /** A quote opens a field at its start and nowhere else; only the last stays open. */
  predicate IsField(f: Field, last: bool) {
    match f
    case Bare(text) => IsPlain(text)
    case Quoted(_, tail) => IsPlain(tail)
    case Open(_) => last
  }

  /** What a field says: padding counts when it was quoted. */
  function Value(f: Field): string {
    match f
    case Bare(text) => Trim(text)
    case Quoted(inside, tail) => inside + tail
    case Open(inside) => inside
  }

  function Separated(fs: seq<Field>): string
    requires fs != []
  {
    if |fs| == 1 then Written(fs[0]) else Written(fs[0]) + ("," + Separated(fs[1..]))
  }

  function Values(fs: seq<Field>): seq<string> {
    if fs == [] then [] else [Value(fs[0])] + Values(fs[1..])
  }

  predicate AreFields(fs: seq<Field>) {
    fs != [] && forall i | 0 <= i < |fs| :: IsField(fs[i], i == |fs| - 1)
  }

  // ---- Reading one field ----

  /** Outside of quotes, and once a quote can open nothing, everything but a comma
      counts. */
  lemma {:induction false} ReadLiteral(at: Reader, text: string, rest: string)
    requires !at.insideQuotes && ',' !in text
    requires at.quoted || at.field != "" || text == "" || text[0] != '"'
    ensures Read(at, text + rest) == Read(at.(field := at.field + text), rest)
    decreases text
  {
    if text == "" {
      assert text + rest == rest && at.field + text == at.field;
    } else {
      assert (text + rest)[1..] == text[1..] + rest;
      ReadLiteral(at.(field := at.field + [text[0]]), text[1..], rest);
      assert at.field + [text[0]] + text[1..] == at.field + text;
    }
  }

  lemma {:induction false} ReadOpen(at: Reader, inside: string)
    requires at.insideQuotes
    ensures Read(at, Doubled(inside)) == Push(at.values, at.field + inside, at.quoted)
    decreases inside
  {
    var text := Doubled(inside);
    if inside == "" {
      assert at.field + inside == at.field;
    } else {
      var tail := Doubled(inside[1..]);
      assert at.field + [inside[0]] + inside[1..] == at.field + inside;
      if inside[0] == '"' {
        assert text[0] == '"' && text[1] == '"' && text[2..] == tail;
        ReadOpen(at.(field := at.field + "\""), inside[1..]);
      } else {
        assert text[0] == inside[0] && text[1..] == tail;
        ReadOpen(at.(field := at.field + [inside[0]]), inside[1..]);
      }
    }
  }

  lemma PushIsNonEmpty(values: seq<string>, field: string, quoted: bool)
    ensures Push(values, field, quoted) == values + NonEmpty([if quoted then field else Trim(field)])
  {
    var value := if quoted then field else Trim(field);
    assert [value][1..] == [] && NonEmpty([]) == [];
    assert NonEmpty([value]) == if value == "" then [] else [value];
    assert values + [] == values;
  }

  lemma EndsHere(values: seq<string>, field: string, quoted: bool, rest: string)
    requires rest == "" || rest[0] == ','
    ensures Read(Reader(values, field, quoted, false), rest)
         == if rest == "" then Push(values, field, quoted) else Read(Between(Push(values, field, quoted)), rest[1..])
  {
  }

  lemma ReadBare(values: seq<string>, text: string, rest: string)
    requires IsPlain(text)
    ensures Read(Between(values), text + rest) == Read(Reader(values, text, false, false), rest)
  {
    ReadLiteral(Between(values), text, rest);
    assert "" + text == text;
  }

  lemma ReadQuotedField(values: seq<string>, inside: string, tail: string, rest: string)
    requires IsPlain(tail) && (rest == "" || rest[0] == ',')
    ensures Read(Between(values), Written(Quoted(inside, tail)) + rest)
         == Read(Reader(values, inside + tail, true, false), rest)
  {
    var after := tail + rest;
    var quoted := Doubled(inside) + "\"" + after;
    Regroup(Doubled(inside) + "\"", tail, rest);
    Regroup("\"", Doubled(inside) + "\"" + tail, rest);
    assert Written(Quoted(inside, tail)) + rest == "\"" + quoted;
    OpensQuotes(values, quoted);
    ReadQuoted(Reader(values, "", true, true), inside, after);
    assert "" + inside == inside;
    ReadLiteral(Reader(values, inside, true, false), tail, rest);
  }

  lemma ReadOpenField(values: seq<string>, inside: string)
    ensures Read(Between(values), Written(Open(inside))) == Push(values, inside, true)
  {
    OpensQuotes(values, Doubled(inside));
    ReadOpen(Reader(values, "", true, true), inside);
    assert "" + inside == inside;
  }

  /** One field says its value, if it says anything, wherever it stands. */
  lemma ReadField(values: seq<string>, f: Field, rest: string)
    requires IsField(f, rest == "") && (rest == "" || rest[0] == ',')
    ensures Read(Between(values), Written(f) + rest)
         == if rest == "" then values + NonEmpty([Value(f)])
            else Read(Between(values + NonEmpty([Value(f)])), rest[1..])
  {
    match f {
      case Bare(text) =>
        ReadBare(values, text, rest);
        EndsHere(values, text, false, rest);
        PushIsNonEmpty(values, text, false);
      case Quoted(inside, tail) =>
        ReadQuotedField(values, inside, tail, rest);
        EndsHere(values, inside + tail, true, rest);
        PushIsNonEmpty(values, inside + tail, true);
      case Open(inside) =>
        assert Written(f) + rest == Written(f);
        ReadOpenField(values, inside);
        PushIsNonEmpty(values, inside, true);
    }
  }

  // ---- Reading any text ----

  lemma {:induction false} ReadFields(values: seq<string>, fs: seq<Field>)
    requires AreFields(fs)
    ensures Read(Between(values), Separated(fs)) == values + NonEmpty(Values(fs))
    decreases fs
  {
    var first := NonEmpty([Value(fs[0])]);
    NonEmptyHead(Values(fs));
    if |fs| == 1 {
      ReadField(values, fs[0], "");
      assert Written(fs[0]) + "" == Written(fs[0]);
      assert fs[1..] == [] && first + [] == first;
    } else {
      var rest := "," + Separated(fs[1..]);
      ReadField(values, fs[0], rest);
      assert rest[1..] == Separated(fs[1..]);
      ReadFields(values + first, fs[1..]);
      Regroup(values, first, NonEmpty(Values(fs[1..])));
    }
  }

  /** Where the first comma is, or the end. */
  function UpToComma(text: string): (n: nat)
    ensures n <= |text| && ',' !in text[..n] && (n < |text| ==> text[n] == ',')
  {
    if text == "" || text[0] == ',' then 0
    else
      var n := UpToComma(text[1..]);
      assert text[..n + 1] == [text[0]] + text[1..][..n];
      n + 1
  }

  /** What stands inside quotes is doubled text, up to a quote that closes it or to the
      end. */
  lemma {:induction false} InsideExists(text: string) returns (inside: string, closed: bool, after: string)
    ensures if closed then text == Doubled(inside) + "\"" + after && (after == "" || after[0] != '"')
            else text == Doubled(inside)
    decreases text
  {
    if text == "" {
      inside, closed, after := "", false, "";
    } else if text[0] == '"' && (|text| == 1 || text[1] != '"') {
      inside, closed, after := "", true, text[1..];
      assert Doubled("") + "\"" + after == text;
    } else {
      var width := if text[0] == '"' then 2 else 1;
      var more;
      more, closed, after := InsideExists(text[width..]);
      inside := [text[0]] + more;
      assert inside[1..] == more && Doubled(inside) == text[..width] + Doubled(more);
      assert text == text[..width] + text[width..];
      Regroup(text[..width], Doubled(more), "\"");
      Regroup(text[..width], Doubled(more) + "\"", after);
    }
  }

  lemma FieldExists(text: string) returns (f: Field, rest: string)
    ensures text == Written(f) + rest && IsField(f, rest == "") && (rest == "" || rest[0] == ',')
  {
    if text != "" && text[0] == '"' {
      var inside, closed, after := InsideExists(text[1..]);
      if closed {
        var n := UpToComma(after);
        f, rest := Quoted(inside, after[..n]), after[n..];
        assert after == after[..n] + after[n..];
        Regroup(Doubled(inside) + "\"", after[..n], after[n..]);
        Regroup("\"", Doubled(inside) + "\"" + after[..n], rest);
        assert text == "\"" + text[1..];
      } else {
        f, rest := Open(inside), "";
        assert text == "\"" + text[1..] && Written(f) + "" == Written(f);
      }
    } else {
      var n := UpToComma(text);
      f, rest := Bare(text[..n]), text[n..];
      assert text == text[..n] + text[n..];
    }
  }

  /** Every text is some fields, separated. */
  lemma {:induction false} FieldsExist(text: string) returns (fs: seq<Field>)
    ensures AreFields(fs) && Separated(fs) == text
    decreases |text|
  {
    var f, rest := FieldExists(text);
    if rest == "" {
      fs := [f];
      assert Written(f) + "" == Written(f);
    } else {
      var more := FieldsExist(rest[1..]);
      fs := [f] + more;
      assert fs[1..] == more && rest == "," + rest[1..];
      forall i | 0 <= i < |fs| ensures IsField(fs[i], i == |fs| - 1) {
        if i > 0 { assert fs[i] == more[i - 1]; }
      }
    }
  }

  /** Main result: any text at all is some fields, and what is read off it is what they
      say, less what says nothing. */
  lemma ReadMeaning(text: string) returns (fs: seq<Field>)
    ensures AreFields(fs) && Separated(fs) == text && Read(START, text) == NonEmpty(Values(fs))
  {
    fs := FieldsExist(text);
    ReadFields([], fs);
    assert [] + NonEmpty(Values(fs)) == NonEmpty(Values(fs));
  }

  /** And however else a text is taken apart, the same is said. */
  lemma ReadingIsUnambiguous(fs: seq<Field>, others: seq<Field>)
    requires AreFields(fs) && AreFields(others) && Separated(fs) == Separated(others)
    ensures NonEmpty(Values(fs)) == NonEmpty(Values(others))
  {
    ReadFields([], fs);
    ReadFields([], others);
    assert [] + NonEmpty(Values(fs)) == NonEmpty(Values(fs));
    assert [] + NonEmpty(Values(others)) == NonEmpty(Values(others));
  }
}
