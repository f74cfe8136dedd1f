/** The rule language of cipher lists: what a rule string does to the list. */
module CipherScanner {
  import opened Bytes
  import opened CipherRules
  import opened CipherStrength

  /** A row of kCipherAliases. */
  datatype Alias = Alias(name: string, mkey: bv32, auth: bv32, enc: bv32, mac: bv32, minVersion: nat)

  /** The compiled-in ciphers and the aliases for sets of them. */
  datatype Tables = Tables(ciphers: seq<CipherInfo>, aliases: seq<Alias>)

  datatype RuleError = UnexpectedOperatorInGroup | MixedSpecialOperatorWithGroups | InvalidCommand

  predicate Alnum(c: char) {
    'a' <= c <= 'z' || 'A' <= c <= 'Z' || '0' <= c <= '9'
  }

  predicate NameChar(c: char) {
    Alnum(c) || c == '-' || c == '.'
  }

  predicate ItemSeparator(c: char) {
    c == ':' || c == ' ' || c == ';' || c == ','
  }

  /** The character at an index, NUL at the end. */
  function Peek(text: string, i: nat): char {
    if i < |text| then text[i] else '\0'
  }

  /** How many name characters the text begins with. */
  function NameLength(text: string): (n: nat)
    ensures n <= |text| && forall i | 0 <= i < n :: NameChar(text[i])
    ensures !NameChar(Peek(text, n))
  {
    if !NameChar(Peek(text, 0)) then 0 else 1 + NameLength(text[1..])
  }

  /** What is behind the rest of a command. */
  function AfterCommand(text: string): (rest: string)
    ensures |rest| <= |text|
  {
    if Peek(text, 0) == '\0' || ItemSeparator(text[0]) then text else AfterCommand(text[1..])
  }

  /** The id of the cipher of that name, 0 if there is none. */
  function CipherNamed(ciphers: seq<CipherInfo>, name: string): nat {
    if ciphers == [] then 0 else if ciphers[0].name == name then ciphers[0].id else CipherNamed(ciphers[1..], name)
  }

  function AliasNamed(aliases: seq<Alias>, name: string): Option<Alias> {
    if aliases == [] then None else if aliases[0].name == name then Some(aliases[0]) else AliasNamed(aliases[1..], name)
  }

  function Both(a: bv32, b: bv32): bv32 {
    a & b
  }

  /** What the parts of a rule have selected so far. */
  datatype Criteria = Criteria(
    cipherId: nat, mkey: bv32, auth: bv32, enc: bv32, mac: bv32, minVersion: nat, skip: bool)
  {
    function Narrow(a: Alias): Criteria {
      var c := this.(mkey := Both(mkey, a.mkey), auth := Both(auth, a.auth), enc := Both(enc, a.enc),
        mac := Both(mac, a.mac));
      if minVersion != 0 && minVersion != a.minVersion then c.(skip := true) else c.(minVersion := a.minVersion)
    }

    function Selects(): Selector {
      Selector(cipherId, mkey, auth, enc, mac, minVersion, -1)
    }
  }

  const EVERYTHING := Criteria(0, 0xffff_ffff, 0xffff_ffff, 0xffff_ffff, 0xffff_ffff, 0, false)

  /** Takes one name of a rule into account. Only a name that stands alone can be a cipher's. */
  function Part(tables: Tables, strict: bool, name: string, alone: bool, c: Criteria): Option<Criteria> {
    var id := if alone then CipherNamed(tables.ciphers, name) else 0;
    if id != 0 then Some(c.(cipherId := id))
    else
      match AliasNamed(tables.aliases, name)
      case Some(a) => Some(c.Narrow(a))
      case None => if strict then None else Some(c.(skip := true))
  }

  datatype Parts = BadParts | Parts(criteria: Criteria, rest: string)

  /** Reads the names of a rule, which are joined by '+'. */
  function ReadParts(tables: Tables, strict: bool, text: string, multi: bool, c: Criteria): (p: Parts)
    ensures p.Parts? ==> |p.rest| < |text|
  {
    var n := NameLength(text);
    if n == 0 then BadParts
    else
      var more := Peek(text, n) == '+';
      match Part(tables, strict, text[..n], !multi && !more, c)
      case None => BadParts
      case Some(d) => if more then ReadParts(tables, strict, text[n + 1..], true, d) else Parts(d, text[n..])
  }

  datatype Operator = Apply(rule: Rule) | Special

  /** The operator a rule begins with, and what stands behind it. */
  function ReadOperator(text: string): (o: (Operator, string))
    requires text != []
  {
    match text[0]
    case '-' => (Operator.Apply(Del), text[1..])
    case '+' => (Operator.Apply(Ord), text[1..])
    case '!' => (Operator.Apply(Kill), text[1..])
    case '@' => (Special, text[1..])
    case _ => (Operator.Apply(Add), text)
  }

  /** The variables of the scanning loop. */
  datatype State = State(text: string, inGroup: bool, hasGroup: bool, list: seq<Entry>)

  datatype Outcome = Done(list: seq<Entry>) | Rejected(error: RuleError)

  datatype Progress = Next(state: State) | Stop(outcome: Outcome)

  /** A group ends with the last entry of the list. */
  function CloseGroup(list: seq<Entry>): (r: seq<Entry>) {
    if list == [] then [] else list[|list| - 1 := list[|list| - 1].(inGroup := false)]
  }

  ghost function SpecialCommand(body: string, st: State): Progress {
    var n := NameLength(body);
    if body[..n] == "STRENGTH" then Next(st.(text := AfterCommand(body[n..]), list := Sorting(st.list, 0)))
    else Stop(Rejected(InvalidCommand))
  }

  ghost function RuleCommand(tables: Tables, strict: bool, rule: Rule, body: string, st: State): Progress {
    match ReadParts(tables, strict, body, false, EVERYTHING)
    case BadParts => Stop(Rejected(InvalidCommand))
    case Parts(c, rest) =>
      Next(st.(text := rest,
               list := if c.skip then st.list else CipherRules.Apply(rule, c.Selects(), st.inGroup, st.list)))
  }

  /** One turn of the scanning loop. */
  ghost function Step(tables: Tables, strict: bool, st: State): Progress {
    var ch := Peek(st.text, 0);
    if ch == '\0' then Stop(if st.inGroup then Rejected(InvalidCommand) else Done(st.list))
    else if st.inGroup && ch == ']' then Next(State(st.text[1..], false, st.hasGroup, CloseGroup(st.list)))
    else if st.inGroup && ch == '|' then Next(st.(text := st.text[1..]))
    else if st.inGroup && !Alnum(ch) then Stop(Rejected(UnexpectedOperatorInGroup))
    else if !st.inGroup && ch == '[' then Next(State(st.text[1..], true, true, st.list))
    else
      var (op, body) := ReadOperator(st.text);
      if st.hasGroup && op != Operator.Apply(Add) then Stop(Rejected(MixedSpecialOperatorWithGroups))
      else if ItemSeparator(ch) then Next(st.(text := st.text[1..]))
      else
        match op
        case Special => SpecialCommand(body, st)
        case Apply(rule) => RuleCommand(tables, strict, rule, body, st)
  }

  lemma StepConsumes(tables: Tables, strict: bool, st: State)
    ensures var p := Step(tables, strict, st); p.Next? ==> |p.state.text| < |st.text|
  {
  }

  /** `ssl_cipher_process_rulestr` */
  ghost function Run(tables: Tables, strict: bool, st: State): (o: Outcome)
    decreases |st.text|
  {
    StepConsumes(tables, strict, st);
    match Step(tables, strict, st)
    case Next(s) => Run(tables, strict, s)
    case Stop(o) => o
  }
}
