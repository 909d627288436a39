/** The agent's server side: the per-connection request handler over the
    shared secure cell, and the choice of the socket path. */
module Agent {
  import opened Protocol
  import opened SecureCell

  /** Serves one connection whose client sent `input`: reads one line,
      checks its length, then answers a 'G' with the trimmed secret or
      replaces the secret on a 'P' (make mutable, wipe, copy, make
      immutable). Any other command byte does nothing. The cell is immutable
      before and after, and the outcome and new secret are those of `Handle`. */
  method HandleClient(cell: Cell, input: seq<byte>) returns (r: Outcome)
    requires cell.Valid() && !cell.mutable
    modifies cell, cell.buffer
    ensures cell.Valid() && !cell.mutable
    ensures Transition(r, cell.buffer[..]) == Handle(old(cell.buffer[..]), input)
  {
    var line := ReadLine(input);
    if line.None? {
      return ReadError;
    }
    var payload := line.value;
    if !LengthOk(|payload|, cell.buffer.Length) {
      return LengthError(|payload|);
    }
    if payload[0] == Get {
      var out: seq<byte> := [];
      if cell.buffer[0] != Nul {
        out := Trim(cell.buffer[..]);
      }
      r := Ok(out);
    } else if payload[0] == Put {
      cell.MakeMutable();
      cell.Wipe();
      cell.Move(payload[CmdSize..]);
      cell.MakeImmutable();
      r := Ok([]);
    } else {
      r := Ok([]);
    }
  }

  /** The socket path: the sole command-line argument (after the program
      name) when it starts with '/', the default otherwise. */
  function SocketPath(args: seq<string>, defaultPath: string): (path: string)
    requires |args| == 2 ==> |args[1]| > 0
    ensures path != defaultPath ==> |args| == 2 && path == args[1]
    ensures path == defaultPath || path[0] == '/'
    ensures |args| == 2 && args[1][0] == '/' ==> path == args[1]
    ensures |args| != 2 ==> path == defaultPath
  {
    if |args| == 2 && args[1][0] == '/' then args[1] else defaultPath
  }
}
