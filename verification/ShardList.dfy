/** The textual shard list of a block: "ip:port|digest,ip:port|digest,...". */
module ShardList {
  import opened Options
  import opened Text

  /** What a placement records for one shard: where it went and its digest. */
  type Shard = (string, string)

  /** Node text as the client re-renders it: parse "ip:port", then print both again. */
  function NodeText(s: string): (r: Option<string>) {
    var i := Find(s, ':');
    var ip := s[..i];
    if i >= |s| - 1 then Some(ip + ":" + Decimal(0))
    else match ParseInt(s[i + 1..])
      case None => None
      case Some(port) => Some(ip + ":" + Printed(port))
  }

  /** An address as every datanode list renders it. */
  ghost predicate CanonicalNode(s: string) {
    exists ip: string, port: nat :: IsNode(s, ip, port)
  }

  ghost predicate IsNode(s: string, ip: string, port: nat) {
    s == ip + ":" + Decimal(port) && port <= INT_MAX && ':' !in ip && ',' !in ip && '|' !in ip
  }

  ghost predicate CanonicalShard(shard: Shard) {
    CanonicalNode(shard.0) && shard.1 != "" && ',' !in shard.1 && '|' !in shard.1
  }

  lemma NodeTextIsIdentity(s: string)
    requires CanonicalNode(s)
    ensures NodeText(s) == Some(s) && s != "" && ',' !in s && '|' !in s
  {
    hide Find, ParseInt, Decimal;
    var ip, port :| IsNode(s, ip, port);
    assert s[..|ip|] == ip && s[|ip|] == ':' && s[|ip| + 1..] == Decimal(port) == Decimal(port) + "";
    FindIs(s, ':', |ip|);
    ParsePrinted(port, "");
  }

  /** One entry of the list, for a shard whose node text parses. */
  function ShardText(shard: Shard): (s: string)
    requires NodeText(shard.0).Some?
  {
    NodeText(shard.0).value + "|" + shard.1
  }

  function ShardTexts(shards: seq<Shard>): (r: seq<string>)
    requires forall i :: 0 <= i < |shards| ==> NodeText(shards[i].0).Some?
    ensures |r| == |shards| && forall i :: 0 <= i < |r| ==> r[i] == ShardText(shards[i])
  {
    seq(|shards|, i requires 0 <= i < |shards| => ShardText(shards[i]))
  }

  /** The two getline calls on one entry; a missing second part leaves the digest empty. */
  function ParseShard(s: string): (shard: Shard) {
    var i := Find(s, '|');
    if i == |s| then (s, "")
    else
      var rest := s[i + 1..];
      (s[..i], rest[..Find(rest, '|')])
  }

  function ParseShards(s: string): (r: seq<Shard>) {
    var fields := Fields(s, ',');
    seq(|fields|, i requires 0 <= i < |fields| => ParseShard(fields[i]))
  }

  /** An address without a port gets port 0; a port is read up to its last digit; any other text is refused. */
  lemma NodeTexts(ip: string, port: nat, rest: string)
    requires ':' !in ip && (rest == "" || !IsDigit(rest[0]))
    ensures NodeText(ip) == NodeText(ip + ":") == Some(ip + ":0")
    ensures NodeText(ip + ":" + Decimal(port) + rest) ==
      if port <= INT_MAX then Some(ip + ":" + Decimal(port)) else None
    ensures rest != "" && !IsBlank(rest[0]) && rest[0] != '+' && rest[0] != '-' ==> NodeText(ip + ":" + rest) == None
  {
    hide Find, ParseInt, Decimal;
    ZeroIs();
    assert ip + ":" + "0" == ip + ":0";
    FindIs(ip, ':', |ip|);
    assert ip[..|ip|] == ip;
    var bare, full, odd := ip + ":", ip + ":" + Decimal(port) + rest, ip + ":" + rest;
    PortOf(bare, ip, "");
    PortOf(full, ip, Decimal(port) + rest);
    PortOf(odd, ip, rest);
    PortParsed(port, rest);
    if rest != "" && !IsBlank(rest[0]) && rest[0] != '+' && rest[0] != '-' {
      NoNumber(rest);
    }
  }

  lemma ZeroIs()
    ensures Decimal(0) == "0"
  {
  }

  lemma PortOf(s: string, ip: string, port: string)
    requires s == ip + ":" + port && ':' !in ip
    ensures Find(s, ':') == |ip| && s[..|ip|] == ip && s[|ip| + 1..] == port
  {
    assert s[..|ip|] == ip && s[|ip|] == ':';
    FindIs(s, ':', |ip|);
  }

  lemma PortParsed(port: nat, rest: string)
    requires rest == "" || !IsDigit(rest[0])
    ensures ParseInt(Decimal(port) + rest) == if port <= INT_MAX then Some(port) else None
  {
    hide ParseInt, Decimal;
    SignedReadsBack(port, rest);
  }

  lemma NoNumber(s: string)
    requires s != "" && !IsDigit(s[0]) && !IsBlank(s[0]) && s[0] != '+' && s[0] != '-'
    ensures ParseInt(s) == None
  {
    assert s[0..] == s;
  }

  /** An entry splits at its first bar, a second bar ends the digest, and without a bar the digest is empty. */
  lemma ShardFields(node: string, hash: string, rest: string)
    requires '|' !in node && '|' !in hash
    ensures ParseShard(node) == (node, "")
    ensures ParseShard(node + "|" + hash) == ParseShard(node + "|" + hash + "|" + rest) == (node, hash)
  {
    hide Find;
    FindIs(node, '|', |node|);
    assert node[..|node|] == node;
    BarOf(node + "|" + hash, node, hash);
    FindIs(hash, '|', |hash|);
    assert hash[..|hash|] == hash;
    var tail := hash + "|" + rest;
    assert node + "|" + hash + "|" + rest == node + "|" + tail;
    BarOf(node + "|" + tail, node, tail);
    BarOf(tail, hash, rest);
  }

  lemma BarOf(s: string, front: string, back: string)
    requires s == front + "|" + back && '|' !in front
    ensures Find(s, '|') == |front| < |s| && s[..|front|] == front && s[|front| + 1..] == back
  {
    assert s[..|front|] == front && s[|front|] == '|';
    FindIs(s, '|', |front|);
  }

  lemma ParseShardText(shard: Shard)
    requires CanonicalShard(shard)
    ensures NodeText(shard.0) == Some(shard.0)
    ensures ParseShard(ShardText(shard)) == shard && Clean(ShardText(shard), ',')
  {
    NodeTextIsIdentity(shard.0);
    var s, n := ShardText(shard), |shard.0|;
    assert s[..n] == shard.0 && s[n] == '|' && s[n + 1..] == shard.1;
    FindIs(s, '|', n);
    assert shard.1[..|shard.1|] == shard.1;
    FindIs(shard.1, '|', |shard.1|);
  }

  /** The shard list reads back: printing and parsing are inverse on canonical shards. */
  lemma ShardListRoundTrip(shards: seq<Shard>)
    requires forall i :: 0 <= i < |shards| ==> CanonicalShard(shards[i])
    ensures forall i :: 0 <= i < |shards| ==> NodeText(shards[i].0).Some?
    ensures ParseShards(Join(ShardTexts(shards), ',')) == shards
  {
    forall i | 0 <= i < |shards|
      ensures NodeText(shards[i].0) == Some(shards[i].0)
      ensures ParseShard(ShardText(shards[i])) == shards[i] && Clean(ShardText(shards[i]), ',')
    {
      ParseShardText(shards[i]);
    }
    FieldsOfJoin(ShardTexts(shards), ',');
  }

  /** encode_one_sub: each entry followed by a comma, the last comma popped. The list is non-empty. */
  method EncodeOneSub(shards: seq<Shard>) returns (res: string)
    requires shards != [] && forall i :: 0 <= i < |shards| ==> NodeText(shards[i].0).Some?
    ensures res == Join(ShardTexts(shards), ',')
  {
    hide Join, ShardText, NodeText;
    res := "";
    ghost var texts := ShardTexts(shards);
    for i := 0 to |shards|
      invariant i == 0 ==> res == ""
      invariant i > 0 ==> res == Join(texts[..i], ',') + ","
    {
      res := res + ShardText(shards[i]) + ",";
      JoinSnoc(texts[..i], texts[i], ',');
      assert texts[..i + 1] == texts[..i] + [texts[i]];
    }
    assert texts[..|shards|] == texts;
    res := res[..|res| - 1];
  }

  /** decode_one_sub: a getline loop over the entries. */
  method DecodeOneSub(s: string) returns (res: seq<Shard>)
    ensures res == ParseShards(s)
  {
    hide Fields, ParseShard, Find;
    res := [];
    var rest := s;
    ghost var fields := Fields(s, ',');
    assert fields[0..] == fields;
    FieldsOfNothing(',');
    while rest != ""
      invariant |res| <= |fields| && Fields(rest, ',') == fields[|res|..]
      invariant forall i :: 0 <= i < |res| ==> res[i] == ParseShard(fields[i])
      decreases |rest|
    {
      var i := Find(rest, ',');
      FieldsStep(rest, ',');
      res := res + [ParseShard(rest[..i])];
      rest := if i == |rest| then "" else rest[i + 1..];
    }
  }
}
