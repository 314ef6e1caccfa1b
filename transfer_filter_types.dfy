/** Values shared by the transfer-filter decoder: the filter catalogue, the
    comparator entries collected while parsing, and the clauses the handlers
    produce. */
module TransferFilterTypes {

  datatype Option<+T> = None | Some(value: T)

  /** The three tables the catalogue refers to (`User.__tablename__`,
      `CustomAttributeUserStorage.__tablename__`, `TransferAccount.__tablename__`). */
  datatype Table = UserTable | CustomAttributeUserStorageTable | TransferAccountTable

  /** `TransferFilterEnum`. */
  datatype FilterKind = IntRange | DateRange | DiscreteKind | BooleanMappingKind

  /** One catalogue entry: the table the key lives in, its kind, and the
      optional list of admissible values. */
  datatype FilterSpec = FilterSpec(table: Table, kind: FilterKind, values: Option<seq<string>>)

  const Male: string := "male"
  const Female: string := "female"

  const Beneficiary: string := "has_beneficiary_role"
  const Vendor: string := "has_vendor_role"
  const TokenAgent: string := "has_token_agent_role"
  const GroupAccount: string := "has_group_account_role"

  /** `TRANSFER_FILTERS`: which table and which kind each key name has. */
  const TransferFilters: map<string, FilterSpec> := map[
    "created" := FilterSpec(UserTable, DateRange, None),
    "User Type" := FilterSpec(UserTable, BooleanMappingKind,
                              Some([Beneficiary, Vendor, TokenAgent, GroupAccount])),
    "gender" := FilterSpec(CustomAttributeUserStorageTable, DiscreteKind, Some([Male, Female])),
    "account_balance" := FilterSpec(TransferAccountTable, IntRange, None)
  ]

  /** The comparator symbol of an encoded token: `=`, `<` or `>`. */
  datatype Comparator = Eq | Lt | Gt

  /** The `{'comparator': ..., 'value': ...}` records collected under a key. */
  datatype FilterAction = FilterAction(comparator: Comparator, value: string)

  /** The operator string of an output tuple: "EQ", "GT" or "LT". */
  datatype Op = EQ | GT | LT

  /** The third component of an output tuple.
      Many:      a list of raw subjects (the EQ lists);
      One:       a raw subject string;
      Flag:      a boolean constant (boolean mappings use `True`);
      Converted: the column-typed conversion of a raw subject (`float(val)`,
                 or the string itself for DATETIME columns), left abstract. */
  datatype Operand = Many(values: seq<string>) | One(value: string) | Flag(flag: bool) | Converted(raw: string)

  /** An output tuple `(key, op, operand)`. */
  datatype Clause = Clause(key: string, op: Op, operand: Operand)

  /** The result dictionary: for each table, the list of handler results in
      the order the keys were flushed. A handler result is `None` when
      `handle_other_types` gave up. */
  type Filters = map<Table, seq<Option<seq<Clause>>>>

  /** The output operator for a strict comparator. */
  function StrictOp(c: Comparator): (op: Op)
    requires c != Eq
    ensures op == (if c == Gt then GT else LT)
  {
    match c
    case Gt => GT
    case Lt => LT
  }

  /** The symbol-to-comparator reading of a token's first character. */
  function ComparatorOf(symbol: char): (c: Comparator)
    requires symbol == '=' || symbol == '<' || symbol == '>'
    ensures c == Eq <==> symbol == '='
    ensures c == Lt <==> symbol == '<'
    ensures c == Gt <==> symbol == '>'
  {
    if symbol == '=' then Eq else if symbol == '<' then Lt else Gt
  }

  /** The custom-attribute table holds exactly one catalogue key, `gender`,
      whose declared kind is nevertheless DISCRETE. */
  lemma OnlyGenderIsCustomAttribute(k: string)
    requires k in TransferFilters
    ensures TransferFilters[k].table == CustomAttributeUserStorageTable <==> k == "gender"
    ensures k == "gender" ==> TransferFilters[k].kind == DiscreteKind
  {
  }
}
