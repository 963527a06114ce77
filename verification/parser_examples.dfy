/** The unit tests of `src/parser.rs`, as facts about the model. The test inputs are
    spelled as concatenations of the byte strings below. */
module ParserExamples {
  import opened Bytes
  import opened Options
  import opened Combinators
  import opened Parser
  import opened ParserLemmas
  import CorrectedParser

  const Foo: seq<byte> := ['f' as byte, 'o' as byte, 'o' as byte]
  const Bar: seq<byte> := ['b' as byte, 'a' as byte, 'r' as byte]
  const Plus: seq<byte> := ['+' as byte]
  const Hash: seq<byte> := ['#' as byte]
  const Question: seq<byte> := ['?' as byte]
  const Space: seq<byte> := [' ' as byte]

  /** `test_op!`: an operator followed by `" bar"` yields its kind and leaves `" bar"`
      (the tests instantiate it for every operator but `!=`). */
  lemma AssignmentOpExamples(i: nat)
    requires i < |Operators|
    ensures ParseAssignmentOp(Operators[i].0 + Space + Bar) == Some((Operators[i].1, Space + Bar))
  {
    assert Operators[i].0 + Space + Bar == Operators[i].0 + (Space + Bar);
    ParseAssignmentOpExact(i, Space + Bar);
  }

  /** An input that starts with none of the operators is rejected. */
  lemma AssignmentOpRejects()
    ensures ParseAssignmentOp(Space + RecursiveOp + Bar) == None
    ensures ParseAssignmentOp(Plus) == None
    ensures ParseAssignmentOp([]) == None
  {
  }

  /** `test_is_variable_name`: `?` and `#` are rejected, `2` and `a` accepted. */
  lemma IsVariableNameExamples()
    ensures !IsVariableName('?' as byte) && !IsVariableName('#' as byte)
    ensures IsVariableName('2' as byte) && IsVariableName('a' as byte)
  {
  }

  /** `test_var_name_*`: the name stops before `#`, `?` and `? `. */
  lemma VariableNameExamples()
    ensures ParseVariableName(Bar + Hash) == Some((Bar, Hash))
    ensures ParseVariableName(Bar[..1] + Question + Bar[1..]) == Some((Bar[..1], Question + Bar[1..]))
    ensures ParseVariableName(Bar[..1] + Question + Space + Bar[1..]) == Some((Bar[..1], Question + Space + Bar[1..]))
  {
    VariableNameExact(Bar, Hash);
    assert Bar[..1] + Question + Bar[1..] == Bar[..1] + (Question + Bar[1..]);
    VariableNameExact(Bar[..1], Question + Bar[1..]);
    assert Bar[..1] + Question + Space + Bar[1..] == Bar[..1] + (Question + Space + Bar[1..]);
    VariableNameExact(Bar[..1], Question + Space + Bar[1..]);
  }

  /** `test_parse_token`: the token of `"foo=bar\n"` is `"foo"`. */
  lemma TokenExample()
    ensures ParseToken(Foo + RecursiveOp + Bar + Lf) == Some((Foo, RecursiveOp + Bar + Lf))
  {
    assert Foo + RecursiveOp + Bar + Lf == Foo + (RecursiveOp + Bar + Lf);
    MaximalRunUnique(IsAlphanumeric, Foo + RecursiveOp + Bar + Lf, Foo, RecursiveOp + Bar + Lf);
  }

  /** `test_parse_variable`: `"foo=bar\n"` is the variable `foo`, `Recursive`, `bar`. */
  lemma VariableExample()
    ensures ParseVariable(Foo + RecursiveOp + Bar + Lf) == Some((Variable(Foo, Recursive, Bar), []))
  {
    var v := Variable(Foo, Recursive, Bar);
    assert WellFormed(v, RecursiveOp, Lf);
    assert Foo + RecursiveOp + Bar + Lf == Render(v, RecursiveOp, Lf) + [];
    ParseVariableRoundTrip(v, RecursiveOp, Lf, []);
  }

  /** `"foo+=bar\n"` is read with the `+` in the name and the `=` as the operator. */
  lemma PlusEqualsExample()
    ensures ParseVariable(Foo + AppendOp + Bar + Lf) == Some((Variable(Foo + Plus, Recursive, Bar), []))
  {
    var w := Variable(Foo + Plus, Recursive, Bar);
    assert WellFormed(w, RecursiveOp, Lf);
    assert Foo + AppendOp + Bar + Lf == Render(w, RecursiveOp, Lf) + [];
    ParseVariableRoundTrip(w, RecursiveOp, Lf, []);
  }

  /** Without a line ending after the value the line is rejected. */
  lemma MissingLineEndingExample()
    ensures ParseVariable(Foo + RecursiveOp + Bar) == None
  {
    VariableNameExact(Foo, RecursiveOp + Bar);
    assert Foo + RecursiveOp + Bar == Foo + (RecursiveOp + Bar);
    ParseAssignmentOpExact(0, Bar);
    MaximalRunUnique(IsAlphanumeric, Bar, Bar, []);
  }

  /** With `+` ending a name, `"foo+=bar\n"` is the variable `foo` with kind `Append`. */
  lemma CorrectedAppendExample()
    ensures CorrectedParser.ParseVariable(Foo + AppendOp + Bar + Lf) == Some((Variable(Foo, Append, Bar), []))
  {
    var v := Variable(Foo, Append, Bar);
    assert (AppendOp, Append) == Operators[1];
    assert CorrectedParser.WellFormed(v, AppendOp, Lf);
    assert Render(v, AppendOp, Lf) + [] == Foo + AppendOp + Bar + Lf;
    CorrectedParser.ParseVariableRoundTrip(v, AppendOp, Lf, []);
  }

  /** `"foo+bar=bar\n"`, whose name has an interior `+`, is read with `foo+bar` as the name. */
  lemma InteriorPlusExample()
    ensures ParseVariable(Foo + Plus + Bar + RecursiveOp + Bar + Lf)
            == Some((Variable(Foo + Plus + Bar, Recursive, Bar), []))
  {
    var w := Variable(Foo + Plus + Bar, Recursive, Bar);
    assert WellFormed(w, RecursiveOp, Lf);
    assert Foo + Plus + Bar + RecursiveOp + Bar + Lf == Render(w, RecursiveOp, Lf) + [];
    ParseVariableRoundTrip(w, RecursiveOp, Lf, []);
  }

  /** The cost of the correction: once `+` ends a name, the same line is rejected, since
      `+b` is no operator. */
  lemma CorrectedInteriorPlusExample()
    ensures CorrectedParser.ParseVariable(Foo + Plus + Bar + RecursiveOp + Bar + Lf) == None
  {
    var afterName := Plus + Bar + RecursiveOp + Bar + Lf;
    var input := Foo + afterName;
    assert Foo + Plus + Bar + RecursiveOp + Bar + Lf == input;
    MaximalRunUnique(CorrectedParser.IsVariableName, input, Foo, afterName);
    assert afterName[..2] == ['+' as byte, 'b' as byte];
    forall i | 0 <= i < |Operators|
      ensures !(Operators[i].0 <= afterName)
    {
      assert Operators[i].0[0] != '+' as byte || Operators[i].0[1] != 'b' as byte;
    }
  }
}
