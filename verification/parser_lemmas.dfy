/** Properties of the variable-assignment parser that relate several of its parsers,
    or relate a parser to an independent description of what it accepts. */
module ParserLemmas {
  import opened Bytes
  import opened Options
  import opened Combinators
  import opened Parser

  /** No operator spelling is a prefix of another one. */
  lemma OperatorsPrefixFree()
    ensures PrefixFree(Operators)
  {
    forall i, j | 0 <= i < |Operators| && 0 <= j < |Operators| && Operators[i].0 <= Operators[j].0
      ensures Operators[i] == Operators[j]
    {
      assert Operators[i].0[0] == Operators[j].0[0];
      if i == 4 || i == 5 {
        assert Operators[i].0[1] == Operators[j].0[1];
      }
    }
  }

  /** The operator parser is the first-match alternation over the operator table. */
  lemma ParseAssignmentOpIsFirstMatch(input: seq<byte>)
    ensures ParseAssignmentOp(input) == FirstMatch(Operators, input)
  {
    OperatorsPrefixFree();
    if RecursiveOp <= input { FirstMatchUnique(Operators, input, 0); }
    else if AppendOp <= input { FirstMatchUnique(Operators, input, 1); }
    else if ConditionalOp <= input { FirstMatchUnique(Operators, input, 2); }
    else if ShellOp <= input { FirstMatchUnique(Operators, input, 3); }
    else if SimpleOp <= input { FirstMatchUnique(Operators, input, 4); }
    else if DoubleColonOp <= input { FirstMatchUnique(Operators, input, 5); }
    else { FirstMatchNone(Operators, input); }
  }

  /** Trying the six alternatives in any other order gives the same result on every input. */
  lemma AssignmentOpOrderIrrelevant(table: seq<(seq<byte>, Assignment)>, input: seq<byte>)
    requires forall e :: e in table <==> e in Operators
    ensures FirstMatch(table, input) == ParseAssignmentOp(input)
  {
    OperatorsPrefixFree();
    OrderIrrelevant(Operators, table, input);
    ParseAssignmentOpIsFirstMatch(input);
  }

  /** Each spelling is read as its own kind and exactly the spelling is consumed,
      whatever follows it. */
  lemma ParseAssignmentOpExact(i: nat, rest: seq<byte>)
    requires i < |Operators|
    ensures ParseAssignmentOp(Operators[i].0 + rest) == Some((Operators[i].1, rest))
  {
    var input := Operators[i].0 + rest;
    OperatorsPrefixFree();
    assert Operators[i].0 <= input;
    FirstMatchUnique(Operators, input, i);
    assert input[|Operators[i].0|..] == rest;
    ParseAssignmentOpIsFirstMatch(input);
  }

  /** A line ending is consumed exactly, whatever follows it. */
  lemma LineEndingExact(eol: seq<byte>, rest: seq<byte>)
    requires eol == CrLf || eol == Lf
    ensures LineEnding(eol + rest) == Some((eol, rest))
  {
    assert eol <= eol + rest;
    assert (eol + rest)[0] == eol[0];
    assert (eol + rest)[|eol|..] == rest;
  }

  /** Every operator spelling except `+=` starts with a byte that ends a variable name. */
  lemma OperatorsStartAtNameStop(i: nat)
    requires i < |Operators|
    ensures Operators[i].0[0] in NameStops <==> Operators[i].0 != AppendOp
  {
  }

  /** Neither line ending starts with a letter or digit. */
  lemma LineEndingNotAlphanumeric(eol: seq<byte>)
    requires eol == CrLf || eol == Lf
    ensures |eol| > 0 && !IsAlphanumeric(eol[0])
  {
  }

  /** A name followed by a name-stop byte is taken whole, up to that byte. */
  lemma VariableNameExact(name: seq<byte>, after: seq<byte>)
    requires |name| > 0 && (forall i | 0 <= i < |name| :: name[i] !in NameStops)
    requires |after| > 0 && after[0] in NameStops
    ensures ParseVariableName(name + after) == Some((name, after))
  {
    MaximalRunUnique(IsVariableName, name + after, name, after);
  }

  /** An alphanumeric value followed by a line ending is taken whole, up to the line ending. */
  lemma TokenExact(value: seq<byte>, eol: seq<byte>, rest: seq<byte>)
    requires |value| > 0 && All(IsAlphanumeric, value)
    requires eol == CrLf || eol == Lf
    ensures ParseToken(value + (eol + rest)) == Some((value, eol + rest))
  {
    LineEndingNotAlphanumeric(eol);
    assert (eol + rest)[0] == eol[0];
    MaximalRunUnique(IsAlphanumeric, value + (eol + rest), value, eol + rest);
  }

  /** Parsing the text of a well-formed assignment line gives back the variable and leaves
      exactly what followed the line, for every operator except `+=`. */
  lemma ParseVariableRoundTrip(v: Variable, op: seq<byte>, eol: seq<byte>, rest: seq<byte>)
    requires WellFormed(v, op, eol) && op != AppendOp
    ensures ParseVariable(Render(v, op, eol) + rest) == Some((v, rest))
  {
    var input := Render(v, op, eol) + rest;
    var afterOp := v.value + (eol + rest);
    var afterName := op + afterOp;
    ConcatAssociative(v.name, op, v.value, eol, rest);
    assert input == v.name + afterName;

    var i :| 0 <= i < |Operators| && Operators[i] == (op, v.assignment);
    OperatorsStartAtNameStop(i);
    assert afterName[0] == op[0];
    VariableNameExact(v.name, afterName);
    ParseAssignmentOpExact(i, afterOp);
    TokenExact(v.value, eol, rest);
    LineEndingExact(eol, rest);
  }

  /** A parsed variable is never an `Append`: the name swallows the `+` of `+=`. */
  lemma AppendNeverParsed(input: seq<byte>)
    requires ParseVariable(input).Some?
    ensures ParseVariable(input).value.0.assignment != Append
  {
    var (name, afterName) := ParseVariableName(input).value;
    var (kind, afterOp) := ParseAssignmentOp(afterName).value;
    assert ParseVariable(input).value.0.assignment == kind;
    var i :| 0 <= i < |Operators| && Operators[i].1 == kind && Operators[i].0 + afterOp == afterName;
    assert Operators[i].0[0] == afterName[0] && afterName[0] in NameStops;
    OperatorsStartAtNameStop(i);
  }

  /** A well-formed line for a variable that is not an `Append` is spelled without `+=`. */
  lemma SpelledWithoutPlusEquals(input: seq<byte>, v: Variable, rest: seq<byte>)
    requires exists op, eol :: WellFormed(v, op, eol) && input == Render(v, op, eol) + rest
    requires v.assignment != Append
    ensures exists op, eol :: WellFormed(v, op, eol) && op != AppendOp && input == Render(v, op, eol) + rest
  {
    var op, eol :| WellFormed(v, op, eol) && input == Render(v, op, eol) + rest;
    var i :| 0 <= i < |Operators| && Operators[i] == (op, v.assignment);
    assert i != 1;
  }

  /** `ParseVariable` succeeds exactly on the inputs that start with a well-formed
      assignment line whose operator is not `+=`. */
  lemma ParseVariableCharacterised(input: seq<byte>, v: Variable, rest: seq<byte>)
    ensures ParseVariable(input) == Some((v, rest))
            <==> exists op, eol :: WellFormed(v, op, eol) && op != AppendOp && input == Render(v, op, eol) + rest
  {
    if ParseVariable(input) == Some((v, rest)) {
      AppendNeverParsed(input);
      SpelledWithoutPlusEquals(input, v, rest);
    }
    if op, eol :| WellFormed(v, op, eol) && op != AppendOp && input == Render(v, op, eol) + rest {
      ParseVariableRoundTrip(v, op, eol, rest);
    }
  }
}
