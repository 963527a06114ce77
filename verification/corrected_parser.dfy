/** The variable parser with `+` added to the bytes that end a variable name, as the
    name predicate already does for `?` and `!` so that `+=` is read as an operator. */
module CorrectedParser {
  import opened Bytes
  import opened Options
  import opened Combinators
  import P = Parser
  import L = ParserLemmas

  /** The name-ending bytes of the parser plus `+`. */
  const NameStops: set<byte> := P.NameStops + {'+' as byte}

  /** May byte `c` occur in a variable name? */
  function IsVariableName(c: byte): (r: bool)
    ensures r <==> c !in NameStops
  {
    P.IsVariableName(c) && c != '+' as byte
  }

  /** The parts of an assignment line whose name avoids the corrected name-ending bytes. */
  ghost predicate WellFormed(v: P.Variable, op: seq<byte>, eol: seq<byte>) {
    P.LineParts(IsVariableName, v, op, eol)
  }

  /** `parse_variable` with the name taken as the longest non-empty run of bytes
      outside the corrected `NameStops`. */
  function ParseVariable(input: seq<byte>): (r: Option<(P.Variable, seq<byte>)>)
    ensures r.Some? ==>
              exists op, eol :: WellFormed(r.value.0, op, eol) && input == P.Render(r.value.0, op, eol) + r.value.1
  {
    match TakeWhile1(IsVariableName, input)
    case None => None
    case Some((name, afterName)) =>
      match P.ParseAssignmentOp(afterName)
      case None => None
      case Some((kind, afterOp)) =>
        match P.ParseToken(afterOp)
        case None => None
        case Some((value, afterValue)) =>
          match P.LineEnding(afterValue)
          case None => None
          case Some((eol, rest)) =>
            P.AssembleLine(IsVariableName, input, name, afterName, kind, afterOp, value, afterValue, eol, rest);
            Some((P.Variable(name, kind, value), rest))
  }

  /** Parsing the text of a well-formed line gives back the variable and leaves exactly
      what followed the line, for all six operators. */
  lemma ParseVariableRoundTrip(v: P.Variable, op: seq<byte>, eol: seq<byte>, rest: seq<byte>)
    requires WellFormed(v, op, eol)
    ensures ParseVariable(P.Render(v, op, eol) + rest) == Some((v, rest))
  {
    var input := P.Render(v, op, eol) + rest;
    var afterOp := v.value + (eol + rest);
    var afterName := op + afterOp;
    P.ConcatAssociative(v.name, op, v.value, eol, rest);
    assert input == v.name + afterName;

    var i :| 0 <= i < |P.Operators| && P.Operators[i] == (op, v.assignment);
    L.OperatorsStartAtNameStop(i);
    assert afterName[0] == op[0] && op[0] in NameStops;
    MaximalRunUnique(IsVariableName, input, v.name, afterName);
    L.ParseAssignmentOpExact(i, afterOp);
    L.TokenExact(v.value, eol, rest);
    L.LineEndingExact(eol, rest);
  }

  /** `ParseVariable` succeeds exactly on the inputs that start with a well-formed line. */
  lemma ParseVariableCharacterised(input: seq<byte>, v: P.Variable, rest: seq<byte>)
    ensures ParseVariable(input) == Some((v, rest))
            <==> exists op, eol :: WellFormed(v, op, eol) && input == P.Render(v, op, eol) + rest
  {
    if op, eol :| WellFormed(v, op, eol) && input == P.Render(v, op, eol) + rest {
      ParseVariableRoundTrip(v, op, eol, rest);
    }
  }

  /** On a line whose name has no `+` the correction changes nothing. */
  lemma AgreesWithoutPlus(input: seq<byte>)
    requires P.ParseVariable(input).Some?
    requires forall i | 0 <= i < |P.ParseVariable(input).value.0.name| :: P.ParseVariable(input).value.0.name[i] != '+' as byte
    ensures ParseVariable(input) == P.ParseVariable(input)
  {
    var (v, rest) := P.ParseVariable(input).value;
    var op, eol :| P.WellFormed(v, op, eol) && input == P.Render(v, op, eol) + rest;
    ParseVariableRoundTrip(v, op, eol, rest);
  }
}
