/** The Makefile variable-assignment parser of `src/parser.rs`: a chain of byte-level
    parsers, each mapping an input to failure or to a value and the unconsumed rest. */
module Parser {
  import opened Bytes
  import opened Options
  import opened Combinators

  /** The kind of binding an assignment operator makes. */
  datatype Assignment = Conditional | Simple | Recursive | Append | Shell

  /** One parsed assignment `name <op> value`; name and value are slices of the input. */
  datatype Variable = Variable(name: seq<byte>, assignment: Assignment, value: seq<byte>)

  const RecursiveOp: seq<byte> := ['=' as byte]
  const AppendOp: seq<byte> := ['+' as byte, '=' as byte]
  const ConditionalOp: seq<byte> := ['?' as byte, '=' as byte]
  const ShellOp: seq<byte> := ['!' as byte, '=' as byte]
  const SimpleOp: seq<byte> := [':' as byte, '=' as byte]
  const DoubleColonOp: seq<byte> := [':' as byte, ':' as byte, '=' as byte]

  /** The six operator spellings with the kind each denotes, in the order the parser tries them. */
  const Operators: seq<(seq<byte>, Assignment)> := [
    (RecursiveOp, Recursive),
    (AppendOp, Append),
    (ConditionalOp, Conditional),
    (ShellOp, Shell),
    (SimpleOp, Simple),
    (DoubleColonOp, Simple)
  ]

  /** `map!(tag!(text), |_| kind)`: recognise one operator spelling. */
  function Tagged(text: seq<byte>, kind: Assignment, input: seq<byte>): (r: Option<(Assignment, seq<byte>)>)
    ensures r.Some? <==> text <= input
    ensures r.Some? ==> r.value.0 == kind && text + r.value.1 == input
  {
    match Tag(text, input)
    case Some((_, rest)) => Some((kind, rest))
    case None => None
  }

  /** Classify the assignment operator that starts the input. On success the input is
      a spelling of the returned kind followed by the returned rest. */
  function ParseAssignmentOp(input: seq<byte>): (r: Option<(Assignment, seq<byte>)>)
    ensures r.Some? <==> exists i | 0 <= i < |Operators| :: Operators[i].0 <= input
    ensures r.Some? ==>
              exists i | 0 <= i < |Operators| :: Operators[i].1 == r.value.0 && Operators[i].0 + r.value.1 == input
  {
    var r := Tagged(RecursiveOp, Recursive, input)
             .OrElse(Tagged(AppendOp, Append, input))
             .OrElse(Tagged(ConditionalOp, Conditional, input))
             .OrElse(Tagged(ShellOp, Shell, input))
             .OrElse(Tagged(SimpleOp, Simple, input))
             .OrElse(Tagged(DoubleColonOp, Simple, input));
    assert r.Some? ==> exists i | 0 <= i < |Operators| :: Operators[i].0 <= input by {
      if RecursiveOp <= input { assert Operators[0].0 <= input; }
      else if AppendOp <= input { assert Operators[1].0 <= input; }
      else if ConditionalOp <= input { assert Operators[2].0 <= input; }
      else if ShellOp <= input { assert Operators[3].0 <= input; }
      else if SimpleOp <= input { assert Operators[4].0 <= input; }
      else if DoubleColonOp <= input { assert Operators[5].0 <= input; }
    }
    assert (exists i | 0 <= i < |Operators| :: Operators[i].0 <= input) ==> r.Some? by {
      if i :| 0 <= i < |Operators| && Operators[i].0 <= input {
        assert i == 0 || i == 1 || i == 2 || i == 3 || i == 4 || i == 5;
      }
    }
    assert r.Some? ==> exists i | 0 <= i < |Operators| :: Operators[i].1 == r.value.0 && Operators[i].0 + r.value.1 == input by {
      if RecursiveOp <= input { assert Operators[0].0 + r.value.1 == input; }
      else if AppendOp <= input { assert Operators[1].0 + r.value.1 == input; }
      else if ConditionalOp <= input { assert Operators[2].0 + r.value.1 == input; }
      else if ShellOp <= input { assert Operators[3].0 + r.value.1 == input; }
      else if SimpleOp <= input { assert Operators[4].0 + r.value.1 == input; }
      else if DoubleColonOp <= input { assert Operators[5].0 + r.value.1 == input; }
    }
    r
  }

  const CrLf: seq<byte> := ['\r' as byte, '\n' as byte]
  const Lf: seq<byte> := ['\n' as byte]

  /** Recognise a line ending, `"\r\n"` or `"\n"`, at the start of the input. */
  function LineEnding(input: seq<byte>): (r: Option<(seq<byte>, seq<byte>)>)
    ensures r.Some? <==> CrLf <= input || Lf <= input
    ensures r.Some? ==> (r.value.0 == CrLf || r.value.0 == Lf) && r.value.0 + r.value.1 == input
  {
    Tag(CrLf, input).OrElse(Tag(Lf, input))
  }

  /** The bytes that end a variable name: `:` `#` `=` `!` `?`, space, tab, CR and LF. */
  const NameStops: set<byte> :=
    {':' as byte, '#' as byte, '=' as byte, '!' as byte, '?' as byte,
     ' ' as byte, '\t' as byte, '\r' as byte, '\n' as byte}

  /** May byte `c` occur in a variable name? */
  function IsVariableName(c: byte): (r: bool)
    ensures r <==> c !in NameStops
  {
    !(c == ':' as byte || c == '#' as byte || c == '=' as byte || c == '!' as byte
      || c == '?' as byte || c == ' ' as byte || c == '\t' as byte || c == '\r' as byte
      || c == '\n' as byte)
  }

  /** Take the variable name at the start of the input: the longest non-empty run of
      bytes outside `NameStops`; the rest starts at the first stop byte. */
  function ParseVariableName(input: seq<byte>): (r: Option<(seq<byte>, seq<byte>)>)
    ensures r.Some? <==> |input| > 0 && input[0] !in NameStops
    ensures r.Some? ==>
              var (name, rest) := r.value;
              name + rest == input && |name| > 0
              && (forall i | 0 <= i < |name| :: name[i] !in NameStops)
              && (rest == [] || rest[0] in NameStops)
  {
    TakeWhile1(IsVariableName, input)
  }

  /** nom's `is_alphanumeric` (an external helper): ASCII digits and letters. */
  predicate IsAlphanumeric(c: byte) {
    ('0' as byte <= c <= '9' as byte) || ('A' as byte <= c <= 'Z' as byte) || ('a' as byte <= c <= 'z' as byte)
  }

  /** Take the token at the start of the input: the longest non-empty run of ASCII
      letters and digits; the rest starts at the first other byte. */
  function ParseToken(input: seq<byte>): (r: Option<(seq<byte>, seq<byte>)>)
    ensures r.Some? <==> |input| > 0 && IsAlphanumeric(input[0])
    ensures r.Some? ==> IsMaximalRun(IsAlphanumeric, input, r.value.0, r.value.1)
  {
    TakeWhile1(IsAlphanumeric, input)
  }

  /** The parts of an assignment line: a non-empty name of bytes accepted by `isName`,
      one of the operator spellings denoting the variable's kind, a non-empty
      alphanumeric value and a line ending. */
  ghost predicate LineParts(isName: byte -> bool, v: Variable, op: seq<byte>, eol: seq<byte>) {
    && |v.name| > 0 && All(isName, v.name)
    && (op, v.assignment) in Operators
    && |v.value| > 0 && All(IsAlphanumeric, v.value)
    && (eol == CrLf || eol == Lf)
  }

  /** The parts of an assignment line that this parser accepts. */
  ghost predicate WellFormed(v: Variable, op: seq<byte>, eol: seq<byte>) {
    LineParts(IsVariableName, v, op, eol)
  }

  /** The text of an assignment line. */
  function Render(v: Variable, op: seq<byte>, eol: seq<byte>): (r: seq<byte>) {
    v.name + op + v.value + eol
  }

  /** Parse `name op value line-ending`. On success the input is exactly a well-formed
      assignment line followed by the returned rest. */
  function ParseVariable(input: seq<byte>): (r: Option<(Variable, seq<byte>)>)
    ensures r.Some? ==>
              exists op, eol :: WellFormed(r.value.0, op, eol) && input == Render(r.value.0, op, eol) + r.value.1
  {
    match ParseVariableName(input)
    case None => None
    case Some((name, afterName)) =>
      match ParseAssignmentOp(afterName)
      case None => None
      case Some((kind, afterOp)) =>
        match ParseToken(afterOp)
        case None => None
        case Some((value, afterValue)) =>
          match LineEnding(afterValue)
          case None => None
          case Some((eol, rest)) =>
            AssembleLine(IsVariableName, input, name, afterName, kind, afterOp, value, afterValue, eol, rest);
            Some((Variable(name, kind, value), rest))
  }

  lemma ConcatAssociative(a: seq<byte>, b: seq<byte>, c: seq<byte>, d: seq<byte>, e: seq<byte>)
    ensures a + (b + (c + (d + e))) == a + b + c + d + e
  {
  }

  /** The stages of a variable parser whose name is the maximal run of `isName` bytes
      compose into one line with well-formed parts. */
  lemma AssembleLine(isName: byte -> bool, input: seq<byte>, name: seq<byte>, afterName: seq<byte>,
                     kind: Assignment, afterOp: seq<byte>, value: seq<byte>, afterValue: seq<byte>,
                     eol: seq<byte>, rest: seq<byte>)
    requires TakeWhile1(isName, input) == Some((name, afterName))
    requires ParseAssignmentOp(afterName) == Some((kind, afterOp))
    requires ParseToken(afterOp) == Some((value, afterValue))
    requires LineEnding(afterValue) == Some((eol, rest))
    ensures exists op, eol :: LineParts(isName, Variable(name, kind, value), op, eol)
                              && input == Render(Variable(name, kind, value), op, eol) + rest
  {
    var v := Variable(name, kind, value);
    assert input == name + afterName;
    var i :| 0 <= i < |Operators| && Operators[i].1 == kind && Operators[i].0 + afterOp == afterName;
    var op := Operators[i].0;
    assert (op, kind) == Operators[i];
    assert afterOp == value + (eol + rest);
    assert input == name + (op + (value + (eol + rest)));
    ConcatAssociative(name, op, value, eol, rest);
    assert LineParts(isName, v, op, eol);
    assert input == Render(v, op, eol) + rest;
  }
}
