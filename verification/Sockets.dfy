/** The `read` and `write` system calls on a connected socket, which may handle fewer bytes than asked for. */
module Sockets {
  import opened Bits

  /** The system calls: some bytes of the input, or none at its end; some bytes accepted, or an error. */
  class Socket {
    var input: seq<Byte>
    var output: seq<Byte>

    method Read(n: nat) returns (data: seq<Byte>)
      requires 0 < n
      modifies this`input
      ensures data + input == old(input) && |data| <= n && (data == [] <==> old(input) == [])
    {
      if input == [] {
        return [];
      }
      var k :| 1 <= k <= n && k <= |input|;
      data, input := input[..k], input[k..];
    }

    method Write(data: seq<Byte>) returns (k: int)
      requires data != []
      modifies this`output
      ensures -1 <= k <= |data| && output == old(output) + data[..if k < 0 then 0 else k]
    {
      k :| -1 <= k <= |data|;
      if 0 < k {
        output := output + data[..k];
      }
    }
  }
}
