/** The predicate engine of the record layer: clauses over byte ranges of a record, and logic trees. */
module Predicates {
  import opened Outcomes
  import opened Bytes
  import opened RecordLayout

  datatype CompOp = NoOp | Eq | Ne | Lt | Gt | Le | Ge

  datatype FieldType = FieldInt32 | FieldFloat32 | FieldBytes

  /** A Float32 value is its 32-bit pattern. */
  datatype ScanValue = ScanInt32(number: i32) | ScanFloat32(bits: u32) | ScanBytes(bytes: seq<byte>)

  datatype FieldRef = FieldRef(offset: nat, length: nat, fieldType: FieldType)

  datatype ScanRhs = RhsValue(value: ScanValue) | RhsField(field: FieldRef)

  datatype Clause = Clause(lhs: FieldRef, op: CompOp, rhs: ScanRhs)

  datatype LogicFilter =
    | Leaf(clause: Clause)
    | All(clauses: seq<Clause>)
    | And(children: seq<LogicFilter>)
    | Or(children: seq<LogicFilter>)
    | Not(child: LogicFilter)

  // ---- orderings

  datatype Ordering = Less | Equal | Greater

  function CompareInts(a: int, b: int): Ordering {
    if a < b then Less else if a == b then Equal else Greater
  }

  /** Position of a bit pattern in the total order of section 5.10 of IEEE 754-2008. */
  function FloatKey(bits: u32): int {
    if bits < 0x8000_0000 then bits else 0x7FFF_FFFF - bits
  }

  function CompareFloats(a: u32, b: u32): Ordering {
    CompareInts(FloatKey(a), FloatKey(b))
  }

  /** Lexicographic order of byte strings. */
  function CompareBytes(a: seq<byte>, b: seq<byte>): Ordering {
    if a == [] && b == [] then Equal
    else if a == [] then Less
    else if b == [] then Greater
    else if a[0] != b[0] then CompareInts(a[0], b[0])
    else CompareBytes(a[1..], b[1..])
  }

  predicate Satisfies(o: Ordering, op: CompOp) {
    match op
    case NoOp => true
    case Eq => o == Equal
    case Ne => o != Equal
    case Lt => o == Less
    case Gt => o == Greater
    case Le => o != Greater
    case Ge => o != Less
  }

  // ---- validation

  function ValidateField(f: FieldRef, recordSize: nat): Result<(), RecordError> {
    if f.offset + f.length >= USIZE_LIMIT then Err(InvalidPredicate)
    else if f.offset + f.length > recordSize then Err(PredicateOutOfBounds(f.offset, f.length, recordSize))
    else match f.fieldType
      case FieldInt32 => if f.length == 4 then Ok(()) else Err(InvalidPredicate)
      case FieldFloat32 => if f.length == 4 then Ok(()) else Err(InvalidPredicate)
      case FieldBytes => if f.length == 0 then Err(InvalidPredicate) else Ok(())
  }

  function ValidateValue(f: FieldRef, v: ScanValue): Result<(), RecordError> {
    match (f.fieldType, v)
    case (FieldInt32, ScanInt32(_)) => if f.length == 4 then Ok(()) else Err(InvalidPredicate)
    case (FieldFloat32, ScanFloat32(_)) => if f.length == 4 then Ok(()) else Err(InvalidPredicate)
    case (FieldBytes, ScanBytes(bytes)) => if |bytes| == f.length then Ok(()) else Err(InvalidPredicate)
    case _ => Err(InvalidPredicate)
  }

  function ValidateClause(c: Clause, recordSize: nat): Result<(), RecordError> {
    if c.op == NoOp then Ok(())
    else
      var _ :- ValidateField(c.lhs, recordSize);
      match c.rhs
      case RhsValue(v) => ValidateValue(c.lhs, v)
      case RhsField(f) =>
        var _ :- ValidateField(f, recordSize);
        if c.lhs.fieldType != f.fieldType || c.lhs.length != f.length then Err(InvalidPredicate) else Ok(())
  }

  function ValidateClauses(cs: seq<Clause>, recordSize: nat): Result<(), RecordError> {
    if cs == [] then Ok(())
    else
      var _ :- ValidateClause(cs[0], recordSize);
      ValidateClauses(cs[1..], recordSize)
  }

  function Validate(f: LogicFilter, recordSize: nat): Result<(), RecordError>
    decreases f, 1
  {
    match f
    case Leaf(c) => ValidateClause(c, recordSize)
    case All(cs) => ValidateClauses(cs, recordSize)
    case And(children) => if children == [] then Err(InvalidPredicate) else ValidateEach(children, recordSize)
    case Or(children) => if children == [] then Err(InvalidPredicate) else ValidateEach(children, recordSize)
    case Not(child) => Validate(child, recordSize)
  }

  function ValidateEach(children: seq<LogicFilter>, recordSize: nat): Result<(), RecordError>
    decreases children, 0
  {
    if children == [] then Ok(())
    else
      var _ :- Validate(children[0], recordSize);
      ValidateEach(children[1..], recordSize)
  }

  // ---- matching; every node validates itself first

  function FieldOf(record: seq<byte>, f: FieldRef): seq<byte>
    requires f.offset + f.length <= |record|
  {
    record[f.offset..f.offset + f.length]
  }

  function CompareFieldToValue(field: seq<byte>, t: FieldType, v: ScanValue): Result<Ordering, RecordError> {
    match (t, v)
    case (FieldInt32, ScanInt32(n)) => if |field| == 4 then Ok(CompareInts(DecodeI32(field), n))
      else Err(InvalidPredicate)
    case (FieldFloat32, ScanFloat32(b)) => if |field| == 4 then Ok(CompareFloats(DecodeU32(field), b))
      else Err(InvalidPredicate)
    case (FieldBytes, ScanBytes(bytes)) => Ok(CompareBytes(field, bytes))
    case _ => Err(InvalidPredicate)
  }

  function CompareFields(a: seq<byte>, t: FieldType, b: seq<byte>): Result<Ordering, RecordError> {
    match t
    case FieldInt32 => if |a| == |b| == 4 then Ok(CompareInts(DecodeI32(a), DecodeI32(b))) else Err(InvalidPredicate)
    case FieldFloat32 => if |a| == |b| == 4 then Ok(CompareFloats(DecodeU32(a), DecodeU32(b)))
      else Err(InvalidPredicate)
    case FieldBytes => Ok(CompareBytes(a, b))
  }

  function MatchesClause(c: Clause, record: seq<byte>): Result<bool, RecordError> {
    var _ :- ValidateClause(c, |record|);
    if c.op == NoOp then Ok(true)
    else
      var lhs := FieldOf(record, c.lhs);
      var o :- match c.rhs
        case RhsValue(v) => CompareFieldToValue(lhs, c.lhs.fieldType, v)
        case RhsField(f) => CompareFields(lhs, c.lhs.fieldType, FieldOf(record, f));
      Ok(Satisfies(o, c.op))
  }

  function MatchesClauses(cs: seq<Clause>, record: seq<byte>): Result<bool, RecordError> {
    if cs == [] then Ok(true)
    else
      var b :- MatchesClause(cs[0], record);
      if !b then Ok(false) else MatchesClauses(cs[1..], record)
  }

  function Matches(f: LogicFilter, record: seq<byte>): Result<bool, RecordError>
    decreases f, 1
  {
    var _ :- Validate(f, |record|);
    match f
    case Leaf(c) => MatchesClause(c, record)
    case All(cs) => MatchesClauses(cs, record)
    case And(children) => MatchesAll(children, record)
    case Or(children) => MatchesAny(children, record)
    case Not(child) =>
      var b :- Matches(child, record);
      Ok(!b)
  }

  /** Stops at the first child that does not match. */
  function MatchesAll(children: seq<LogicFilter>, record: seq<byte>): Result<bool, RecordError>
    decreases children, 0
  {
    if children == [] then Ok(true)
    else
      var b :- Matches(children[0], record);
      if !b then Ok(false) else MatchesAll(children[1..], record)
  }

  /** Stops at the first child that matches. */
  function MatchesAny(children: seq<LogicFilter>, record: seq<byte>): Result<bool, RecordError>
    decreases children, 0
  {
    if children == [] then Ok(false)
    else
      var b :- Matches(children[0], record);
      if b then Ok(true) else MatchesAny(children[1..], record)
  }

  // ---- a filter that passes validation never fails

  lemma ClauseAnswers(c: Clause, record: seq<byte>)
    ensures MatchesClause(c, record).Ok? <==> ValidateClause(c, |record|).Ok?
  {
    hide DecodeI32, DecodeU32, CompareBytes;
  }

  /** Matching stops early, but what it has not looked at is checked before: it fails exactly on a filter
      that validation refuses for records of this size. */
  lemma {:induction false} AnswersIffValid(f: LogicFilter, record: seq<byte>)
    ensures Matches(f, record).Ok? <==> Validate(f, |record|).Ok?
    decreases f, 1
  {
    hide MatchesClause, ValidateClause;
    match f
    case Leaf(c) => ClauseAnswers(c, record);
    case All(cs) => ClausesAnswer(cs, record);
    case And(children) => EachAnswers(children, record);
    case Or(children) => EachAnswers(children, record);
    case Not(child) => AnswersIffValid(child, record);
  }

  /** A list of clauses matches exactly if each clause does. */
  lemma {:induction false} ClausesAnswer(cs: seq<Clause>, record: seq<byte>)
    ensures ValidateClauses(cs, |record|).Ok? ==>
              MatchesClauses(cs, record) == Ok(forall k :: 0 <= k < |cs| ==> MatchesClause(cs[k], record) == Ok(true))
    decreases |cs|
  {
    hide MatchesClause, ValidateClause;
    if cs != [] {
      ClauseAnswers(cs[0], record);
      ClausesAnswer(cs[1..], record);
      assert forall k :: 1 <= k < |cs| ==> cs[k] == cs[1..][k - 1];
    }
  }

  lemma {:induction false} EachAnswers(children: seq<LogicFilter>, record: seq<byte>)
    ensures ValidateEach(children, |record|).Ok? ==>
              MatchesAll(children, record).Ok? && MatchesAny(children, record).Ok?
    decreases children, 0
  {
    if children != [] {
      AnswersIffValid(children[0], record);
      EachAnswers(children[1..], record);
    }
  }

  // ---- the orders

  lemma FloatKeyInjective(a: u32, b: u32)
    ensures FloatKey(a) == FloatKey(b) <==> a == b
  {
  }

  lemma {:induction false} CompareBytesEqual(a: seq<byte>, b: seq<byte>)
    ensures CompareBytes(a, b) == Equal <==> a == b
  {
    if a != [] && b != [] && a[0] == b[0] {
      CompareBytesEqual(a[1..], b[1..]);
      assert a == [a[0]] + a[1..] && b == [b[0]] + b[1..];
    }
  }

  function Reverse(o: Ordering): Ordering {
    match o
    case Less => Greater
    case Equal => Equal
    case Greater => Less
  }

  lemma {:induction false} CompareBytesReverse(a: seq<byte>, b: seq<byte>)
    ensures CompareBytes(b, a) == Reverse(CompareBytes(a, b))
  {
    if a != [] && b != [] && a[0] == b[0] {
      CompareBytesReverse(a[1..], b[1..]);
    }
  }

  lemma {:induction false} CompareBytesTransitive(a: seq<byte>, b: seq<byte>, c: seq<byte>)
    requires CompareBytes(a, b) != Greater && CompareBytes(b, c) != Greater
    ensures CompareBytes(a, c) != Greater
    ensures CompareBytes(a, b) == Less || CompareBytes(b, c) == Less ==> CompareBytes(a, c) == Less
  {
    if a != [] && b != [] && c != [] && a[0] == b[0] == c[0] {
      CompareBytesTransitive(a[1..], b[1..], c[1..]);
    }
  }
}
