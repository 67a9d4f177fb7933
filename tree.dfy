/**
 * One street tree. The record checks each field as it is stored, in the
 * order id, diameter, status, health, species, zip code, borough, and refuses
 * to exist when a check fails. Its fields are assigned once, during
 * construction, so it is modelled as a value.
 */
module TreeRecord {
  import opened Wrappers
  import opened IgnoreCase

  /** A Java int. */
  type Int32 = x: int | -0x8000_0000 <= x < 0x8000_0000

  /** The stored fields. status and health are None where the input was empty (Java null). */
  datatype TreeFields = TreeFields(
    id: Int32,
    dbh: Int32,
    status: Option<string>,
    health: Option<string>,
    spc: string,
    zipcode: Int32,
    boro: string,
    // the planar coordinates are stored verbatim and never inspected
    x: real,
    y: real)

  predicate IsStatusName(s: string) {
    EqualsIgnoreCase(s, "alive") || EqualsIgnoreCase(s, "dead") || EqualsIgnoreCase(s, "stump")
  }

  predicate IsHealthName(s: string) {
    EqualsIgnoreCase(s, "good") || EqualsIgnoreCase(s, "fair") || EqualsIgnoreCase(s, "poor")
  }

  predicate IsBoroughName(s: string) {
    || EqualsIgnoreCase(s, "manhattan")
    || EqualsIgnoreCase(s, "bronx")
    || EqualsIgnoreCase(s, "brooklyn")
    || EqualsIgnoreCase(s, "queens")
    || EqualsIgnoreCase(s, "staten island")
  }

  /** Inputs the status setter accepts: a status name, or the empty string for absent. */
  predicate StatusAccepted(s: string) {
    s == "" || IsStatusName(s)
  }

  /** Inputs the health setter accepts: a health name, or the empty string for absent. */
  predicate HealthAccepted(s: string) {
    s == "" || IsHealthName(s)
  }

  /** What every constructed tree satisfies. */
  predicate Valid(t: TreeFields) {
    && t.id >= 0
    && t.dbh >= 0
    && (t.status.Some? ==> IsStatusName(t.status.value))
    && (t.health.Some? ==> IsHealthName(t.health.value))
    && 0 <= t.zipcode <= 99999
    && IsBoroughName(t.boro)
  }

  /** A constructed tree: no tree with an invalid field can exist. */
  type Tree = t: TreeFields | Valid(t)
    witness TreeFields(0, 0, None, None, "", 0, "manhattan", 0.0, 0.0)

  /** The field whose check failed, with the rejected value. */
  datatype FieldError =
    | InvalidId(id: int)
    | InvalidDiameter(diam: int)
    | InvalidStatus(status: string)
    | InvalidHealth(health: string)
    | InvalidZipcode(zip: int)
    | InvalidBorough(boro: string)

  /** The id is stored when it is not negative. */
  function SetID(v: Int32): Result<Int32, FieldError>
  {
    if v >= 0 then Success(v) else Failure(InvalidId(v))
  }

  /** The diameter is stored when it is not negative. */
  function SetDiam(v: Int32): Result<Int32, FieldError>
  {
    if v >= 0 then Success(v) else Failure(InvalidDiameter(v))
  }

  /**
   * The status is stored as given when it is alive, dead or stump ignoring
   * case; the empty string is stored as absent; anything else is refused.
   */
  function SetStatus(v: string): (r: Result<Option<string>, FieldError>)
    ensures r.Success? <==> v == "" || IsStatusName(v)
    ensures r.Success? ==> r.value == (if v == "" then None else Some(v))
    ensures r.Failure? ==> r.error == InvalidStatus(v)
  {
    CompareIgnoreCaseZero(v, "alive");
    CompareIgnoreCaseZero(v, "dead");
    CompareIgnoreCaseZero(v, "stump");
    EmptyIsNoName();
    if CompareIgnoreCase(v, "alive") == 0 || CompareIgnoreCase(v, "dead") == 0
      || CompareIgnoreCase(v, "stump") == 0
    then Success(Some(v))
    else if v == "" then Success(None)
    else Failure(InvalidStatus(v))
  }

  /**
   * The health is stored as given when it is good, fair or poor ignoring
   * case; the empty string is stored as absent; anything else is refused.
   */
  function SetHealth(v: string): (r: Result<Option<string>, FieldError>)
    ensures r.Success? <==> v == "" || IsHealthName(v)
    ensures r.Success? ==> r.value == (if v == "" then None else Some(v))
    ensures r.Failure? ==> r.error == InvalidHealth(v)
  {
    CompareIgnoreCaseZero(v, "good");
    CompareIgnoreCaseZero(v, "fair");
    CompareIgnoreCaseZero(v, "poor");
    EmptyIsNoName();
    if CompareIgnoreCase(v, "good") == 0 || CompareIgnoreCase(v, "fair") == 0
      || CompareIgnoreCase(v, "poor") == 0
    then Success(Some(v))
    else if v == "" then Success(None)
    else Failure(InvalidHealth(v))
  }

  /**
   * The species check compares the argument with null through equals, which
   * is false for every string: any species, the empty one included, is stored.
   */
  function SetSpc(v: string): string {
    v
  }

  /** The zip code is stored when it lies in 0..99999. */
  function SetZip(v: Int32): Result<Int32, FieldError>
  {
    if v > -1 && v < 100000 then Success(v) else Failure(InvalidZipcode(v))
  }

  /** The borough is stored as given when it is one of the five, ignoring case. */
  function SetBoro(v: string): (r: Result<string, FieldError>)
    ensures r.Success? <==> IsBoroughName(v)
    ensures r == (if r.Success? then Success(v) else Failure(InvalidBorough(v)))
  {
    CompareIgnoreCaseZero(v, "manhattan");
    CompareIgnoreCaseZero(v, "bronx");
    CompareIgnoreCaseZero(v, "brooklyn");
    CompareIgnoreCaseZero(v, "queens");
    CompareIgnoreCaseZero(v, "staten island");
    if CompareIgnoreCase(v, "manhattan") == 0 || CompareIgnoreCase(v, "bronx") == 0
      || CompareIgnoreCase(v, "brooklyn") == 0 || CompareIgnoreCase(v, "queens") == 0
      || CompareIgnoreCase(v, "staten island") == 0
    then Success(v)
    else Failure(InvalidBorough(v))
  }

  /**
   * The constructor: the setters run in the order id, diameter, status,
   * health, species, zip code, borough, and the first failure is the one
   * reported; x and y are stored unchecked.
   */
  function NewTree(id: Int32, diam: Int32, status: string, health: string, spc: string,
                   zip: Int32, boro: string, x: real, y: real): (r: Result<Tree, FieldError>)
    ensures r.Success? <==>
      && id >= 0 && diam >= 0 && StatusAccepted(status) && HealthAccepted(health)
      && 0 <= zip <= 99999 && IsBoroughName(boro)
    ensures r.Success? ==>
      && r.value.id == id && r.value.dbh == diam
      && r.value.status == (if status == "" then None else Some(status))
      && r.value.health == (if health == "" then None else Some(health))
      && r.value.spc == spc && r.value.zipcode == zip && r.value.boro == boro
      && r.value.x == x && r.value.y == y
    ensures id < 0 ==> r == Failure(InvalidId(id))
    ensures (id >= 0 && diam < 0) ==> r == Failure(InvalidDiameter(diam))
    ensures (id >= 0 && diam >= 0 && !StatusAccepted(status)) ==>
      r == Failure(InvalidStatus(status))
    ensures (id >= 0 && diam >= 0 && StatusAccepted(status) && !HealthAccepted(health)) ==>
      r == Failure(InvalidHealth(health))
    ensures (id >= 0 && diam >= 0 && StatusAccepted(status) && HealthAccepted(health)
             && !(0 <= zip <= 99999)) ==>
      r == Failure(InvalidZipcode(zip))
    ensures (id >= 0 && diam >= 0 && StatusAccepted(status) && HealthAccepted(health)
             && 0 <= zip <= 99999 && !IsBoroughName(boro)) ==>
      r == Failure(InvalidBorough(boro))
  {
    var treeId :- SetID(id);
    var treeDbh :- SetDiam(diam);
    var treeStatus :- SetStatus(status);
    var treeHealth :- SetHealth(health);
    var spcCommon := SetSpc(spc);
    var zipcode :- SetZip(zip);
    var boroname :- SetBoro(boro);
    Success(TreeFields(treeId, treeDbh, treeStatus, treeHealth, spcCommon, zipcode, boroname, x, y))
  }

  lemma EmptyIsNoName()
    ensures !IsStatusName("") && !IsHealthName("") && !IsBoroughName("")
  {
    assert |Lower("")| == 0;
  }

  /** Raised by equals when two records share an id but not a species. */
  datatype IntegrityFault = SpeciesMismatch(id: int, spc: string, otherSpc: string)

  /**
   * Tree.equals: records with different ids differ; records with the same id
   * are equal when their species agree ignoring case, and otherwise the data
   * set is corrupt and an integrity fault is raised instead of an answer.
   */
  function Equals(a: Tree, b: Tree): (r: Result<bool, IntegrityFault>)
    ensures r == Success(false) <==> a.id != b.id
    ensures r == Success(true) <==> a.id == b.id && EqualsIgnoreCase(a.spc, b.spc)
    ensures r.Failure? <==> a.id == b.id && !EqualsIgnoreCase(a.spc, b.spc)
  {
    CompareIgnoreCaseZero(a.spc, b.spc);
    if a.id == b.id then
      if CompareIgnoreCase(a.spc, b.spc) == 0 then Success(true)
      else Failure(SpeciesMismatch(a.id, a.spc, b.spc))
    else Success(false)
  }

  /**
   * Tree.compareTo: -1 when a sorts before b. A species later in the
   * alphabet (ignoring case) sorts first; among equal species the higher id
   * sorts first.
   */
  function CompareTo(a: Tree, b: Tree): (r: int)
    ensures r == -1 || r == 0 || r == 1
    ensures r == 0 <==> EqualsIgnoreCase(a.spc, b.spc) && a.id == b.id
    ensures r == -1 <==>
      LexLess(Lower(b.spc), Lower(a.spc)) || (EqualsIgnoreCase(a.spc, b.spc) && a.id > b.id)
    ensures r == 1 <==>
      LexLess(Lower(a.spc), Lower(b.spc)) || (EqualsIgnoreCase(a.spc, b.spc) && a.id < b.id)
  {
    CompareIgnoreCaseZero(a.spc, b.spc);
    CompareIgnoreCaseNegative(a.spc, b.spc);
    CompareIgnoreCaseNegative(b.spc, a.spc);
    CompareIgnoreCaseAntisymmetric(a.spc, b.spc);
    LexLessTrichotomy(Lower(a.spc), Lower(b.spc));
    if CompareIgnoreCase(a.spc, b.spc) > 0 then -1
    else if CompareIgnoreCase(a.spc, b.spc) < 0 then 1
    else if a.id > b.id then -1
    else if a.id < b.id then 1
    else 0
  }

  /** Swapping the records negates the comparison. */
  lemma CompareToAntisymmetric(a: Tree, b: Tree)
    ensures CompareTo(a, b) == -CompareTo(b, a)
  {
    LexLessTrichotomy(Lower(a.spc), Lower(b.spc));
  }

  /** Sorting-before (-1) is transitive. */
  lemma CompareToTransitive(a: Tree, b: Tree, c: Tree)
    requires CompareTo(a, b) == -1 && CompareTo(b, c) == -1
    ensures CompareTo(a, c) == -1
  {
    var la, lb, lc := Lower(a.spc), Lower(b.spc), Lower(c.spc);
    if LexLess(lb, la) && LexLess(lc, lb) {
      LexLessTransitive(lc, lb, la);
    }
  }

  /** Records that compare as 0 compare alike with every third record. */
  lemma CompareToZeroSubstitutes(a: Tree, b: Tree, c: Tree)
    requires CompareTo(a, b) == 0
    ensures CompareTo(a, c) == CompareTo(b, c)
  {
  }

  /** For instance, an oak sorts before a maple whatever their ids and casing. */
  lemma OakBeforeMaple(a: Tree, b: Tree)
    requires a.spc == "Oak" && b.spc == "maple"
    ensures CompareTo(a, b) == -1 && CompareTo(b, a) == 1
  {
    assert Lower(a.spc)[0] == 'o' && Lower(b.spc)[0] == 'm';
  }

  /** compareTo is consistent with equals: 0 exactly when equals answers true. */
  lemma CompareToConsistentWithEquals(a: Tree, b: Tree)
    ensures CompareTo(a, b) == 0 <==> Equals(a, b) == Success(true)
  {
  }

  /** equals gives the same answer, or the same kind of fault, in both directions. */
  lemma EqualsSymmetric(a: Tree, b: Tree)
    ensures Equals(a, b).Success? <==> Equals(b, a).Success?
    ensures Equals(a, b).Success? ==> Equals(a, b) == Equals(b, a)
  {
  }
}
