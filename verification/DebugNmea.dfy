/** The tokenizer of the debug sentences the modem sends: the checksum mark counts as one more comma, every
    comma ends a field, and what follows the last comma is dropped.
 */
module DebugNmea {

  const NMEA_MINSIZE: nat := 6
  const NMEA_MAXSIZE: nat := 4096

  /** The place of the first `c`, or the length if there is none. */
  function Find(s: string, c: char): (k: nat)
    ensures k <= |s| && (k < |s| ==> s[k] == c)
    ensures forall i :: 0 <= i < k ==> s[i] != c
  {
    if s == "" || s[0] == c then 0 else Find(s[1..], c) + 1
  }

  predicate IsDebug(text: string, length: int) {
    NMEA_MINSIZE <= length <= NMEA_MAXSIZE && |text| >= 4 && text[..4] == "$PQW"
  }

  /** The pieces that a comma ends. */
  function Fields(s: string): seq<string>
    decreases |s|
  {
    var k := Find(s, ',');
    if k == |s| then [] else [s[..k]] + Fields(s[k + 1..])
  }

  /** What follows the last comma. */
  function Rest(s: string): string
    decreases |s|
  {
    var k := Find(s, ',');
    if k == |s| then s else Rest(s[k + 1..])
  }

  /** The fields, each followed by a comma. */
  function Glue(fields: seq<string>): string {
    if fields == [] then "" else fields[0] + "," + Glue(fields[1..])
  }

  predicate CommaFree(fields: seq<string>) {
    forall i :: 0 <= i < |fields| ==> ',' !in fields[i]
  }

  /** The fields a sentence of the given length is parsed into; none if it is no debug sentence or carries
      no checksum. */
  function Parse(text: string, length: int): seq<string> {
    var star := Find(text, '*');
    if IsDebug(text, length) && star < |text| then Fields(text[star := ',']) else []
  }

  lemma CutAt(s: string, k: nat)
    requires k < |s|
    ensures s == s[..k] + [s[k]] + s[k + 1..]
  {
  }

  lemma SnocAssociates<T>(a: seq<T>, x: T, b: seq<T>)
    ensures (a + [x]) + b == a + ([x] + b)
  {
  }

  lemma Associates(a: string, b: string, c: string)
    ensures (a + b) + c == a + (b + c)
  {
  }

  lemma GlueOfCons(first: string, fields: seq<string>)
    ensures Glue([first] + fields) == first + "," + Glue(fields)
  {
    assert ([first] + fields)[1..] == fields;
  }

  lemma {:induction false} FieldsAreCommaFree(s: string)
    ensures CommaFree(Fields(s)) && ',' !in Rest(s)
    decreases |s|
  {
    var k := Find(s, ',');
    if k < |s| {
      FieldsAreCommaFree(s[k + 1..]);
    }
  }

  /** Printing after parsing: the fields and the rest rebuild the text. */
  lemma {:induction false} FieldsRebuild(s: string)
    ensures Glue(Fields(s)) + Rest(s) == s
    decreases |s|
  {
    var k := Find(s, ',');
    if k < |s| {
      var head, tail := s[..k], s[k + 1..];
      FieldsRebuild(tail);
      CutAt(s, k);
      GlueOfCons(head, Fields(tail));
      Associates(head + ",", Glue(Fields(tail)), Rest(tail));
    }
  }

  /** A comma-free piece is cut off in front of its comma. */
  lemma CutBehind(head: string, tail: string)
    requires ',' !in head
    ensures Fields(head + "," + tail) == [head] + Fields(tail) && Rest(head + "," + tail) == Rest(tail)
  {
    var s, k := head + "," + tail, |head|;
    assert s[..k] == head && s[k] == ',' && s[k + 1..] == tail;
    assert forall i :: 0 <= i < k ==> s[i] == head[i];
    assert Find(s, ',') == k;
  }

  /** Parsing after printing: comma-free fields and a comma-free rest are read back, so a text is cut in one
      way only. */
  lemma {:induction false} GlueIsReadBack(fields: seq<string>, rest: string)
    requires CommaFree(fields) && ',' !in rest
    ensures Fields(Glue(fields) + rest) == fields && Rest(Glue(fields) + rest) == rest
    decreases |fields|
  {
    var s := Glue(fields) + rest;
    if fields == [] {
      assert s == rest;
    } else {
      var tail := Glue(fields[1..]) + rest;
      assert s == fields[0] + "," + tail by {
        Associates(fields[0] + ",", Glue(fields[1..]), rest);
      }
      CutBehind(fields[0], tail);
      GlueIsReadBack(fields[1..], rest);
    }
  }

  /** The fields of an accepted sentence with a checksum mark hold no comma, and joined, each followed by a
      comma, they rebuild the sentence with its first mark replaced, up to a comma-free rest. */
  lemma ParseRebuilds(text: string, length: int)
    requires IsDebug(text, length) && '*' in text
    ensures CommaFree(Parse(text, length)) && Parse(text, length) != []
    ensures exists rest :: ',' !in rest && Glue(Parse(text, length)) + rest == text[Find(text, '*') := ',']
  {
    var s := text[Find(text, '*') := ','];
    FieldsRebuild(s);
    FieldsAreCommaFree(s);
    assert Fields(s) != [] by {
      assert s[Find(text, '*')] == ',';
    }
    assert Glue(Parse(text, length)) + Rest(s) == s;
  }

  /** There are fields exactly for a sentence of 6 to 4096 characters that starts with the debug talker and carries
      a checksum mark. */
  lemma ParsesExactly(text: string, length: int)
    ensures Parse(text, length) != [] <==> 6 <= length <= 4096 && "$PQW" <= text && '*' in text
  {
    if IsDebug(text, length) && '*' in text {
      ParseRebuilds(text, length);
    }
  }

  lemma {:induction false} GlueOfSnoc(fields: seq<string>, last: string)
    ensures Glue(fields + [last]) == Glue(fields) + last + ","
  {
    if fields == [] {
      assert [last][1..] == [];
    } else {
      assert (fields + [last])[1..] == fields[1..] + [last];
      GlueOfSnoc(fields[1..], last);
    }
  }

  /** The mark behind a body without marks is found and replaced. */
  lemma MarkBehind(body: string, checksum: string)
    requires '*' !in body
    ensures var text := body + "*" + checksum;
            Find(text, '*') == |body| && text[|body| := ','] == body + "," + checksum
  {
    var text := body + "*" + checksum;
    assert text[|body|] == '*' && forall i :: 0 <= i < |body| ==> text[i] == body[i];
  }

  /** Round trip of a well-formed sentence: fields free of commas and marks, joined by commas and closed by a
      mark and a comma-free checksum, are parsed back into the same fields, the checksum dropped. */
  lemma SentencesAreReadBack(fields: seq<string>, last: string, checksum: string, length: int)
    requires CommaFree(fields + [last]) && ',' !in checksum
    requires '*' !in Glue(fields) + last
    requires IsDebug(Glue(fields) + last + "*" + checksum, length)
    ensures Parse(Glue(fields) + last + "*" + checksum, length) == fields + [last]
  {
    var body := Glue(fields) + last;
    MarkBehind(body, checksum);
    GlueOfSnoc(fields, last);
    GlueIsReadBack(fields + [last], checksum);
  }

  // ---------------------------------------------------------------- the parser's own form

  class SystemStatusNmeaBase {
    var fields: seq<string>

    constructor (text: string, length: int)
      ensures fields == Parse(text, length)
    {
      fields := [];
      new;
      if IsDebug(text, length) {
        var index := Find(text, '*');
        if index < |text| {
          var parser := text[index := ','];
          ghost var all := parser;
          while true
            invariant fields + Fields(parser) == Fields(all)
            decreases |parser|
          {
            index := Find(parser, ',');
            if index == |parser| {
              break;
            }
            SnocAssociates(fields, parser[..index], Fields(parser[index + 1..]));
            fields, parser := fields + [parser[..index]], parser[index + 1..];
          }
        }
      }
    }
  }
}
