/**
 Storage types. Reed-Solomon arithmetic belongs to a library and enters as a pair of functions with
 one hypothesis: any k shards of a block, in order, decode to the block. Replication is concrete.
 */
module StorageTypes {
  import opened Options
  import opened Text

  type Bytes = seq<bv8>

  datatype StorageType =
    | RS(k: nat, m: nat, b: nat)
    | RE(replications: nat, b: nat)
    | AGG(k: nat, m: nat, b: nat)
  {
    /** Whether `succ` stored shards are considered enough. */
    predicate Check(succ: nat) {
      match this
      case RE(_, _) => succ >= 1
      case _ => succ > k
    }

    function DecodeBlocks(): (n: nat) {
      if RE? then 1 else k
    }

    function Blocks(): (n: nat) {
      if RE? then replications else k + m
    }

    /** Block size in bytes; `b` counts mebibytes. */
    function BlockSize(): (n: nat)
      ensures n == 0x10_0000 * b
    {
      b * 1024 * 1024
    }
  }

  /** The erasure-code library: encode (data, k, m), decode (shards, k, m). */
  datatype Library = Library(encode: (Bytes, nat, nat) -> seq<Bytes>, decode: (seq<Bytes>, nat, nat) -> Bytes)

  function Encode(lib: Library, st: StorageType, data: Bytes): (shards: seq<Bytes>) {
    match st
    case RE(n, _) => seq(n, _ => data)
    case _ => lib.encode(data, st.k, st.m)
  }

  function Decode(lib: Library, st: StorageType, shards: seq<Bytes>): (data: Bytes)
    requires shards != []
  {
    match st
    case RE(_, _) => shards[0]
    case _ => lib.decode(shards, st.k, st.m)
  }

  /** Shard numbers in increasing order, all below `n`. */
  ghost predicate IsPick(idx: seq<nat>, n: nat) {
    && (forall i :: 0 <= i < |idx| ==> idx[i] < n)
    && (forall i, j :: 0 <= i < j < |idx| ==> idx[i] < idx[j])
  }

  function Pick<T>(xs: seq<T>, idx: seq<nat>): (r: seq<T>)
    requires forall i :: 0 <= i < |idx| ==> idx[i] < |xs|
    ensures |r| == |idx| && forall i :: 0 <= i < |r| ==> r[i] == xs[idx[i]]
  {
    seq(|idx|, i requires 0 <= i < |idx| => xs[idx[i]])
  }

  /** What is assumed of the library: k + m shards, any k of which decode to the data. */
  ghost predicate Recovers(lib: Library, k: nat, m: nat) {
    && (forall data: Bytes :: |lib.encode(data, k, m)| == k + m)
    && (forall data: Bytes, idx: seq<nat> {:trigger Pick(lib.encode(data, k, m), idx)} ::
      IsPick(idx, k + m) && |idx| == k ==> lib.decode(Pick(lib.encode(data, k, m), idx), k, m) == data)
  }

  /** A storage type that can hold data at all, on a library that meets its hypothesis. */
  ghost predicate Sound(lib: Library, st: StorageType) {
    st.DecodeBlocks() >= 1 && (st.RE? || Recovers(lib, st.k, st.m))
  }

  lemma SoundEncodes(lib: Library, st: StorageType, data: Bytes)
    requires Sound(lib, st)
    ensures |Encode(lib, st, data)| == st.Blocks()
  {
    if !st.RE? {
      assert |lib.encode(data, st.k, st.m)| == st.k + st.m;
    }
  }

  /** Any DecodeBlocks() shards of a block, of whatever storage type, give the block back. */
  lemma AnyShardsDecode(lib: Library, st: StorageType, data: Bytes, idx: seq<nat>)
    requires Sound(lib, st) && IsPick(idx, st.Blocks()) && |idx| == st.DecodeBlocks()
    ensures |Encode(lib, st, data)| == st.Blocks()
    ensures Decode(lib, st, Pick(Encode(lib, st, data), idx)) == data
  {
    if st.RE? {
      assert Pick(Encode(lib, st, data), idx)[0] == data;
    } else {
      assert Encode(lib, st, data) == lib.encode(data, st.k, st.m);
    }
  }

  // The text of a storage type.

  function Numbers(st: StorageType): (ns: seq<nat>) {
    match st
    case RS(k, m, b) => [k, m, b]
    case RE(n, b) => [n, b]
    case AGG(k, m, b) => [k, m, b]
  }

  function Prefix(st: StorageType): (s: string) {
    if st.RS? then "RS<" else if st.RE? then "RE<" else "AGG<"
  }

  function Decimals(ns: seq<nat>): (r: seq<string>)
    ensures |r| == |ns| && forall i :: 0 <= i < |r| ==> r[i] == Decimal(ns[i])
  {
    seq(|ns|, i requires 0 <= i < |ns| => Decimal(ns[i]))
  }

  /** to_string. */
  function ToText(st: StorageType): (s: string) {
    Prefix(st) + Join(Decimals(Numbers(st)), ',') + ">"
  }

  /** One group of digits that std::stoi accepts. */
  predicate IsNumber(s: string) {
    s != "" && (forall c :: c in s ==> IsDigit(c)) && NumberOf(s) <= INT_MAX
  }

  /** The numbers between a prefix and the closing bracket, when the text has that shape. */
  function ParseNumbers(input: string, prefix: string): (r: Option<seq<nat>>) {
    var n := |prefix|;
    if n < |input| && prefix <= input && input[|input| - 1] == '>' then
      var body := input[n..|input| - 1];
      var fields := Fields(body, ',');
      if Join(fields, ',') == body && forall i :: 0 <= i < |fields| ==> IsNumber(fields[i]) then
        Some(seq(|fields|, i requires 0 <= i < |fields| => NumberOf(fields[i])))
      else None
    else None
  }

  /** StorageType::from_string: the regular expression, and the conversion of its groups. */
  function FromString(input: string): (r: Option<StorageType>) {
    var rs, re, agg := ParseNumbers(input, "RS<"), ParseNumbers(input, "RE<"), ParseNumbers(input, "AGG<");
    if rs.Some? && |rs.value| == 3 then Some(RS(rs.value[0], rs.value[1], rs.value[2]))
    else if re.Some? && |re.value| == 2 then Some(RE(re.value[0], re.value[1]))
    else if agg.Some? && |agg.value| == 3 then Some(AGG(agg.value[0], agg.value[1], agg.value[2]))
    else None
  }

  lemma NumbersReadBack(prefix: string, ns: seq<nat>)
    requires forall i :: 0 <= i < |ns| ==> ns[i] <= INT_MAX
    ensures ParseNumbers(prefix + Join(Decimals(ns), ',') + ">", prefix) == Some(ns)
  {
    hide Join, Fields, Decimal, NumberOf;
    var body := Join(Decimals(ns), ',');
    var input := prefix + body + ">";
    assert input[..|prefix|] == prefix && input[|prefix|..|input| - 1] == body;
    forall i | 0 <= i < |ns| ensures IsNumber(Decimal(ns[i])) && NumberOf(Decimal(ns[i])) == ns[i] {
      NumberOfDecimal(ns[i]);
    }
    FieldsOfJoin(Decimals(ns), ',');
    var fields := Fields(body, ',');
    assert fields == Decimals(ns) && prefix <= input;
    assert ParseNumbers(input, prefix).value == ns;
  }

  lemma OtherPrefix(input: string, other: string, i: nat)
    requires i < |input| && i < |other| && input[i] != other[i]
    ensures ParseNumbers(input, other) == None
  {
  }

  /** The texts between the brackets, comma-separated, of the numbers `ns`. */
  ghost predicate Spelled(input: string, prefix: string, fields: seq<string>, ns: seq<nat>) {
    && input == prefix + Join(fields, ',') + ">" && |fields| == |ns| > 0
    && forall i :: 0 <= i < |fields| ==> IsNumber(fields[i]) && NumberOf(fields[i]) == ns[i]
  }

  lemma ParsedExactly(input: string, prefix: string, ns: seq<nat>)
    requires ns != []
    ensures ParseNumbers(input, prefix) == Some(ns) <==> exists fields :: Spelled(input, prefix, fields, ns)
  {
    var n := |prefix|;
    if ParseNumbers(input, prefix) == Some(ns) {
      var body := input[n..|input| - 1];
      assert input == input[..n] + body + [input[|input| - 1]];
      assert Spelled(input, prefix, Fields(body, ','), ns);
    }
    if fields :| Spelled(input, prefix, fields, ns) {
      var body := Join(fields, ',');
      assert input[..n] == prefix && input[n..|input| - 1] == body;
      forall i | 0 <= i < |fields| ensures Clean(fields[i], ',') {
        assert IsNumber(fields[i]);
      }
      FieldsOfJoin(fields, ',');
      assert ParseNumbers(input, prefix).value == ns;
    }
  }

  /** Exactly which texts are storage types: a prefix, the numbers in decimal digits, and a bracket. */
  lemma TypeExactly(input: string, st: StorageType)
    ensures FromString(input) == Some(st) <==> exists fields :: Spelled(input, Prefix(st), fields, Numbers(st))
  {
    hide ParseNumbers, Join, IsNumber;
    ParsedExactly(input, Prefix(st), Numbers(st));
    if FromString(input) == Some(st) {
      assert ParseNumbers(input, Prefix(st)).Some? && ParseNumbers(input, Prefix(st)).value == Numbers(st);
    }
    if exists fields :: Spelled(input, Prefix(st), fields, Numbers(st)) {
      var fields :| Spelled(input, Prefix(st), fields, Numbers(st));
      if st.RE? {
        OtherPrefix(input, "RS<", 1);
      } else if st.AGG? {
        OtherPrefix(input, "RS<", 0);
        OtherPrefix(input, "RE<", 0);
      }
    }
  }

  /** A printed storage type reads back. */
  lemma StorageTypeReadsBack(st: StorageType)
    requires forall i :: 0 <= i < |Numbers(st)| ==> Numbers(st)[i] <= INT_MAX
    ensures FromString(ToText(st)) == Some(st)
  {
    hide ParseNumbers, Join;
    NumbersReadBack(Prefix(st), Numbers(st));
    var s := ToText(st);
    if st.RE? {
      OtherPrefix(s, "RS<", 1);
    } else if st.AGG? {
      OtherPrefix(s, "RS<", 0);
      OtherPrefix(s, "RE<", 0);
    }
  }
}
