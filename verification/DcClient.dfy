/** The replication client: its tables of outstanding operations and the acknowledgement counter. */
module DcClient {
  import opened Bytes
  import opened Capsules

  /** Requests are kept per hash and per kind of request. */
  datatype GetKey = GetKey(hash: Hash, metaOnly: bool)

  /** `puts`: outstanding writes and whether they are done. `acks`: acknowledgements per hash, never
      reset. `gets`: requests and, once done, the record; entries are never removed. */
  datatype Client = Client(puts: map<Hash, bool>, acks: map<Hash, nat>, gets: map<GetKey, Option<Record>>)

  function AckCount(c: Client, h: Hash): (n: nat) {
    if h in c.acks then c.acks[h] else 0
  }

  function BeginPut(c: Client, h: Hash): (r: Client) {
    if h in c.puts then c else c.(puts := c.puts[h := false])
  }

  function EndPut(c: Client, h: Hash): (r: Client) {
    c.(puts := c.puts - {h})
  }

  /** The acknowledgement that reaches the threshold marks an outstanding write as done. */
  function CountAck(c: Client, threshold: nat, h: Hash): (r: Client) {
    var n := AckCount(c, h) + 1;
    Client(if n == threshold && h in c.puts then c.puts[h := true] else c.puts, c.acks[h := n], c.gets)
  }

  function BeginGet(c: Client, k: GetKey): (r: Client) {
    if k in c.gets then c else c.(gets := c.gets[k := None])
  }

  /** A response is filed under the kind of request its payload suggests. */
  function TakeReply(c: Client, h: Hash, rec: Record): (r: Client) {
    var k := GetKey(h, rec.payload == []);
    if k in c.gets then c.(gets := c.gets[k := Some(rec)]) else c
  }

  class DCClient {
    const threshold: nat
    var puts: map<Hash, bool>
    var acks: map<Hash, nat>
    var gets: map<GetKey, Option<Record>>

    ghost function State(): (c: Client)
      reads this
    {
      Client(puts, acks, gets)
    }

    constructor (threshold: nat)
      ensures this.threshold == threshold && State() == Client(map[], map[], map[])
    {
      this.threshold := threshold;
      puts, acks, gets := map[], map[], map[];
    }

    /** The first half of `Put`: register, then multicast unless the hash is already outstanding. */
    method PutBegin(h: Hash) returns (multicast: bool)
      modifies this`puts
      ensures State() == BeginPut(old(State()), h) && (multicast <==> h !in old(puts))
      ensures puts == if multicast then old(puts)[h := false] else old(puts)
    {
      multicast := h !in puts;
      if multicast {
        puts := puts[h := false];
      }
    }

    /** The second half of `Put`, behind the wait for `done`. */
    method PutEnd(h: Hash)
      requires h in puts && puts[h]
      modifies this`puts
      ensures State() == EndPut(old(State()), h) && puts == old(puts) - {h}
    {
      puts := puts - {h};
    }

    method CommitAck(h: Hash) returns (found: bool)
      modifies this`puts
      ensures found <==> h in old(puts)
      ensures puts == if found then old(puts)[h := true] else old(puts)
    {
      if h !in puts {
        return false;
      }
      puts := puts[h := true];
      found := true;
    }

    method HandleAck(h: Hash)
      modifies this
      ensures State() == CountAck(old(State()), threshold, h)
      ensures var n := (if h in old(acks) then old(acks)[h] else 0) + 1;
              && acks == old(acks)[h := n] && gets == old(gets)
              && puts == if n == threshold && h in old(puts) then old(puts)[h := true] else old(puts)
    {
      acks := acks[h := (if h in acks then acks[h] else 0) + 1];
      if acks[h] == threshold {
        var _ := CommitAck(h);
      }
    }

    /** The first half of `Get`: one request per key, ever. */
    method GetBegin(k: GetKey) returns (send: bool)
      modifies this`gets
      ensures State() == BeginGet(old(State()), k) && (send <==> k !in old(gets))
      ensures gets == if send then old(gets)[k := None] else old(gets)
    {
      send := k !in gets;
      if send {
        gets := gets[k := None];
      }
    }

    method HandleGetResp(h: Hash, success: bool, rec: Record)
      modifies this`gets
      ensures State() == if success then TakeReply(old(State()), h, rec) else old(State())
      ensures var k := GetKey(h, |rec.payload| == 0);
              gets == if success && k in old(gets) then old(gets)[k := Some(rec)] else old(gets)
    {
      if success {
        var k := GetKey(h, |rec.payload| == 0);
        if k in gets {
          gets := gets[k := Some(rec)];
        }
      }
    }
  }
}
