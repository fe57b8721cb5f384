/** A connected socket: the bytes still to arrive, and a script of what each `read` yields.

    `read(fd, buf, count)` may hand over any number of the bytes that have arrived, and it may
    fail at any time. The script holds one number for each read to come, the most that read may
    hand over; 0 makes it fail, and so does an empty script or an empty stream. Every behaviour
    of the network is some script, so a statement for all scripts covers every chunking.
 */
module Transport {
  import opened Bytes

  datatype Net = Net(incoming: seq<byte>, script: seq<nat>)
  {
    function Take(count: nat): (n: nat)
      ensures n <= count && n <= |incoming|
    {
      var most := if script == [] then 0 else script[0];
      if most <= count && most <= |incoming| then most
      else if count <= |incoming| then count else |incoming|
    }

    /** The bytes the next read of up to `count` bytes hands over; none when it fails. */
    function Got(count: nat): (b: seq<byte>)
      ensures |b| <= count
    {
      incoming[..Take(count)]
    }

    function After(count: nat): (n: Net)
      ensures |n.incoming| + |Got(count)| == |incoming|
    {
      Net(incoming[Take(count)..], if script == [] then [] else script[1..])
    }
  }

  /** A read hands over a prefix of what is left, as long as the script, the caller and the stream
      allow, and uses up one entry of the script. */
  lemma ReadTakesPrefix(net: Net, count: nat)
    ensures var got, most := net.Got(count), if net.script == [] then 0 else net.script[0];
            && net.incoming == got + net.After(count).incoming
            && net.After(count).script == (if net.script == [] then [] else net.script[1..])
            && |got| <= most && |got| <= count && |got| <= |net.incoming|
            && (|got| == most || |got| == count || |got| == |net.incoming|)
  {
  }

  /** An entry of the script may be taken to be the number of bytes its read hands over: any larger
      one that hands over as many is the same. A script of results stands for every behaviour. */
  lemma EntryIsResult(incoming: seq<byte>, most: nat, later: seq<nat>, count: nat)
    ensures var net := Net(incoming, [most] + later);
            var same := Net(incoming, [net.Take(count)] + later);
            same.Got(count) == net.Got(count) && same.After(count) == net.After(count)
  {
  }

  class Connection {
    var net: Net
    var outgoing: seq<byte>

    constructor (incoming: seq<byte>, script: seq<nat>)
      ensures net == Net(incoming, script) && outgoing == []
    {
      net, outgoing := Net(incoming, script), [];
    }

    /** The bytes of `buf` past the ones read keep their old contents. */
    method Read(buf: array<byte>, count: nat) returns (rul: nat)
      requires count <= buf.Length
      modifies this`net, buf
      ensures net == old(net).After(count)
      ensures rul == |old(net).Got(count)|
      ensures buf[..rul] == old(net).Got(count)
      ensures buf[rul..] == old(buf[rul..])
    {
      rul := net.Take(count);
      var got := net.incoming;
      forall i | 0 <= i < rul {
        buf[i] := got[i];
      }
      net := net.After(count);
    }

    method Write(buf: array<byte>, count: nat)
      requires count <= buf.Length
      modifies this`outgoing
      ensures outgoing == old(outgoing) + buf[..count]
    {
      outgoing := outgoing + buf[..count];
    }
  }
}
