/** What the secret masker is asked to register, and exactly when the registration runs to its end. */
module VarFileMasking {
  import opened JsText
  import opened VarFileScanner
  import opened VarFileExtraction
  import opened VarFileRoundTrip

  /** Some line of some value, trimmed, is `t`, and is long enough to be masked. */
  ghost predicate IsLineOf(values: seq<string>, t: string) {
    && |t| >= MIN_MASKABLE_VALUE_LENGTH
    && exists i :: 0 <= i < |values| && IsTrimmedLine(SplitLines(values[i]), t)
  }

  ghost predicate IsTrimmedLine(lines: seq<string>, t: string) {
    exists j :: 0 <= j < |lines| && Trim(lines[j]) == t
  }

  lemma {:induction false} LineSecretsExact(lines: seq<string>, t: string)
    ensures t in LineSecrets(lines) <==> |t| >= MIN_MASKABLE_VALUE_LENGTH && IsTrimmedLine(lines, t)
  {
    hide Trim;
    if lines != [] {
      LineSecretsExact(lines[1..], t);
      assert forall j :: 0 < j < |lines| ==> lines[j] == lines[1..][j - 1];
      assert forall j :: 0 <= j < |lines[1..]| ==> lines[1..][j] == lines[j + 1];
    }
  }

  /** Exactly the long lines of the extracted values are submitted, trimmed. */
  lemma {:induction false} SecretsExact(values: seq<string>, t: string)
    ensures t in Secrets(values) <==> IsLineOf(values, t)
  {
    hide SplitLines, LineSecrets, IsTrimmedLine;
    if values != [] {
      LineSecretsExact(SplitLines(values[0]), t);
      SecretsExact(values[1..], t);
      assert forall j :: 0 < j < |values| ==> values[j] == values[1..][j - 1];
      assert forall j :: 0 <= j < |values[1..]| ==> values[1..][j] == values[j + 1];
    }
  }

  lemma {:induction false} AcceptedAll(secrets: seq<string>)
    ensures Accepted(secrets) == secrets <==> forall t :: t in secrets ==> !Multiline(t)
  {
    hide Multiline;
    if secrets != [] {
      AcceptedAll(secrets[1..]);
      assert secrets == [secrets[0]] + secrets[1..];
    }
  }

  lemma TrimSubset(s: string, c: char)
    ensures c in Trim(s) ==> c in s
  {
    hide IsSpace, LeadingSpaces;
    var a := TrimStart(s);
    assert a == s[LeadingSpaces(s)..];
    if c in Trim(s) {
      var k :| 0 <= k < |Trim(s)| && Trim(s)[k] == c;
      assert a[k] == c && s[LeadingSpaces(s) + k] == c;
    }
  }

  /** And they are submitted in order: those of each line, and of each value, after those of the ones before it. */
  lemma {:induction false} SecretsInOrder(a: seq<string>, b: seq<string>)
    ensures Secrets(a + b) == Secrets(a) + Secrets(b)
  {
    hide LineSecrets, SplitLines;
    if a == [] {
      assert a + b == b;
    } else {
      assert (a + b)[1..] == a[1..] + b;
      SecretsInOrder(a[1..], b);
    }
  }

  lemma {:induction false} LinesInOrder(a: seq<string>, b: seq<string>)
    ensures LineSecrets(a + b) == LineSecrets(a) + LineSecrets(b)
  {
    hide Trim;
    if a == [] {
      assert a + b == b;
    } else {
      assert (a + b)[1..] == a[1..] + b;
      LinesInOrder(a[1..], b);
    }
  }

  /** No submitted secret holds a line feed, so only a lone carriage return can make the masker throw. */
  lemma LinesAreFeedFree(values: seq<string>, t: string)
    requires IsLineOf(values, t)
    ensures '\n' !in t
  {
    hide Trim, StripCr;
    var i :| 0 <= i < |values| && IsTrimmedLine(SplitLines(values[i]), t);
    var lines := SplitLines(values[i]);
    var j :| 0 <= j < |lines| && Trim(lines[j]) == t;
    TrimSubset(lines[j], '\n');
    PieceOf(values[i], j);
  }

  lemma PieceOf(value: string, j: nat)
    requires j < |SplitLines(value)|
    ensures '\n' !in SplitLines(value)[j]
  {
    var pieces := Split(value, '\n');
    assert '\n' !in pieces[j];
  }

  /**
   Registration is not best-effort on every file: it runs to its end, with every long line
   registered, if and only if no long line keeps a carriage return inside after trimming.
   */
  lemma MaskingCompletes(values: seq<string>)
    ensures Accepted(Secrets(values)) == Secrets(values) <==> forall t :: IsLineOf(values, t) ==> '\r' !in t
  {
    hide Secrets, Accepted, IsLineOf;
    AcceptedAll(Secrets(values));
    forall t ensures t in Secrets(values) <==> IsLineOf(values, t) { SecretsExact(values, t); }
    forall t | IsLineOf(values, t) ensures Multiline(t) <==> '\r' in t { LinesAreFeedFree(values, t); }
  }

  /** A value such as `ab\rcd`, which a var file writes with the escape `\r`, stops the registration. */
  lemma LoneCarriageReturnStops(parse: string -> Option<Json>)
    ensures var values := ExtractSpec(parse, PrintFile([Assign("k", "ab\rcd", NoComment)], false));
      values == ["ab\rcd"] && Accepted(Secrets(values)) != Secrets(values)
  {
    hide WellFormed, FaithfulItem, ExtractSpec, Secrets, Accepted, PrintFile, FileValues, FileExtracted, Trim, SplitLines;
    var item := Assign("k", "ab\rcd", NoComment);
    WitnessItem();
    OnlyItem(item);
    PrintExtract(parse, [item], false);
    RoundTripExact([item]);
    var values := ["ab\rcd"];
    MaskingCompletes(values);
    CarriageReturnLine();
    assert IsTrimmedLine(SplitLines(values[0]), "ab\rcd");
    assert IsLineOf(values, "ab\rcd");
  }

  lemma WitnessItem()
    ensures var item := Assign("k", "ab\rcd", NoComment); WellFormed(item) && FaithfulItem(item)
  {
  }

  lemma OnlyItem(item: Item)
    ensures item.Assign? ==> FileValues([item]) == [item.value]
    ensures forall k :: 0 <= k < |[item]| ==> [item][k] == item
  {
    assert FileValues([item][1..]) == [];
  }

  lemma CarriageReturnLine()
    ensures SplitLines("ab\rcd") == ["ab\rcd"] && Trim("ab\rcd") == "ab\rcd"
  {
    SplitNone("ab\rcd", '\n');
    assert "" + "ab\rcd" + "" == "ab\rcd";
    TrimPadded("", "ab\rcd", "");
  }

  /**
   End to end: when no literal of a printed var file holds a backslash before n, r or t, exactly the
   long lines of the declared values are submitted to the masker, whatever the line ending.
   */
  lemma PrintedValuesAreSubmitted(parse: string -> Option<Json>, items: seq<Item>, crlf: bool, t: string)
    requires forall k :: 0 <= k < |items| ==> WellFormed(items[k]) && FaithfulItem(items[k])
    ensures t in Secrets(ExtractSpec(parse, PrintFile(items, crlf))) <==> IsLineOf(FileValues(items), t)
  {
    hide WellFormed, FaithfulItem, ExtractSpec, Secrets, IsLineOf;
    PrintExtract(parse, items, crlf);
    RoundTripExact(items);
    SecretsExact(FileValues(items), t);
  }
}
