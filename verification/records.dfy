/**
 * The two sources as ordered sequences of rows, and `get_legislation_data`,
 * which takes row `index` of one source as a record for the comparison.
 * Pairing is positional: the pair at `index` is row `index` of each source.
 */
module Records {
  import opened Values

  /** One data-frame row: column name to cell. */
  type Row = map<string, Value>

  /** What `get_legislation_data` returns: a row with NA cells blanked. */
  type Record = map<string, Value>

  /** `min(len(qistas_df), len(diwan_df))`: how many pairs there are to
      review; rows past the shorter source are never reached. */
  function PairCount(qistas: seq<Row>, diwan: seq<Row>): (n: nat)
    ensures n <= |qistas| && n <= |diwan|
    ensures n == |qistas| || n == |diwan|
  {
    if |qistas| <= |diwan| then |qistas| else |diwan|
  }

  /** `'' if pd.isna(v) else v` */
  function Blank(v: Value): Value {
    if IsNa(v) then Text("") else v
  }

  /** `get_legislation_data(index, source_df)`: row `index` with every None
      or NaN cell replaced by '', or the empty record past the end. */
  function GetLegislationData(index: nat, source: seq<Row>): (r: Record)
    ensures index >= |source| ==> r == map[]
    ensures index < |source| ==> r.Keys == source[index].Keys
    ensures forall k :: k in r ==> !IsNa(r[k])
    ensures index < |source| ==>
      forall k :: k in r ==> r[k] == (if IsNa(source[index][k]) then Text("") else source[index][k])
  {
    if index >= |source| then map[]
    else map k | k in source[index] :: Blank(source[index][k])
  }
}
