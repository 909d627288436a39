/** The request protocol of the secret agent, as pure functions over bytes:
    reading one line, checking its length, trimming the stored secret for a
    'G' request and overwriting it for a 'P' request. `Handle` is the whole
    effect of one connection on the stored secret; the imperative handler in
    module Agent is proved against it. */
module Protocol {

  /** A byte on the wire and in the secret buffer. */
  type byte = x: int | 0 <= x < 256

  const Nul: byte := 0
  /** '\n', the request delimiter. */
  const Newline: byte := 10
  /** 'G': write the stored secret back to the client. */
  const Get: byte := 71
  /** 'P': replace the stored secret with the rest of the line. */
  const Put: byte := 80

  /** Length of a command code. */
  const CmdSize: nat := 1
  /** Size of the secret buffer the agent allocates unless told otherwise. */
  const DefaultBufferSize: nat := 256

  datatype Option<T> = None | Some(value: T)

  /** What one connection reports to its caller. `Ok` carries the bytes
      written back on the connection. */
  datatype Outcome = ReadError | LengthError(n: nat) | Ok(output: seq<byte>)

  /** The outcome of one connection together with the secret it leaves. */
  datatype Transition = Transition(outcome: Outcome, secret: seq<byte>)

  function Min(a: nat, b: nat): nat { if a <= b then a else b }

  function Zeros(n: nat): (z: seq<byte>)
    ensures |z| == n
    ensures forall i :: 0 <= i < n ==> z[i] == Nul
  {
    seq(n, _ => Nul)
  }

  /** Position of the first occurrence of `b` in `s`, if any. */
  function IndexOf(s: seq<byte>, b: byte): (k: Option<nat>)
    ensures k.None? <==> b !in s
    ensures k.Some? ==> k.value < |s| && s[k.value] == b && b !in s[..k.value]
  {
    if s == [] then None
    else if s[0] == b then Some(0)
    else
      match IndexOf(s[1..], b)
      case None =>
        assert s == [s[0]] + s[1..];
        None
      case Some(j) =>
        assert s[..j + 1] == [s[0]] + s[1..][..j];
        Some(j + 1)
  }

  /** Reads up to and including the first delimiter, as a buffered line
      reader does; without a delimiter the read fails. */
  function ReadLine(input: seq<byte>): (line: Option<seq<byte>>)
    ensures line.None? <==> Newline !in input
    ensures line.Some? ==>
      var l := line.value;
      0 < |l| && l <= input && l[|l| - 1] == Newline && Newline !in l[..|l| - 1]
  {
    match IndexOf(input, Newline)
    case None => None
    case Some(k) =>
      assert input[..k + 1][..k] == input[..k];
      Some(input[..k + 1])
  }

  /** The length check on a line, delimiter included, for a buffer of
      `size` bytes. */
  predicate LengthOk(n: nat, size: nat)
  {
    CmdSize + 1 <= n <= CmdSize + size + 1
  }

  /** The bytes stripped from both ends of the secret before it is sent. */
  predicate InCutset(b: byte)
  {
    b == Newline || b == Nul
  }

  predicate AllCut(s: seq<byte>)
  {
    forall i :: 0 <= i < |s| ==> InCutset(s[i])
  }

  /** `r` is `s` with only cut-set bytes before position `lo` and after
      `r` removed. */
  predicate PaddedAround(s: seq<byte>, lo: nat, r: seq<byte>)
  {
    lo + |r| <= |s| && s[lo..lo + |r|] == r && AllCut(s[..lo]) && AllCut(s[lo + |r|..])
  }

  /** Drops leading cut-set bytes: the result is the longest suffix of `s`
      that does not start with one. */
  function TrimLeft(s: seq<byte>): (r: seq<byte>)
    ensures |r| <= |s| && r == s[|s| - |r|..]
    ensures r == [] || !InCutset(r[0])
    ensures AllCut(s[..|s| - |r|])
  {
    if s != [] && InCutset(s[0]) then
      var r := TrimLeft(s[1..]);
      assert s[..|s| - |r|] == [s[0]] + s[1..][..|s| - 1 - |r|];
      r
    else s
  }

  /** Drops trailing cut-set bytes: the result is the longest prefix of `s`
      that does not end with one. */
  function TrimRight(s: seq<byte>): (r: seq<byte>)
    ensures |r| <= |s| && r == s[..|r|]
    ensures r == [] || !InCutset(r[|r| - 1])
    ensures AllCut(s[|r|..])
  {
    if s != [] && InCutset(s[|s| - 1]) then
      var r := TrimRight(s[..|s| - 1]);
      assert s[|r|..] == s[..|s| - 1][|r|..] + [s[|s| - 1]];
      r
    else s
  }

  /** Trim with the cut set "\n\x00": a contiguous slice of `s` whose first
      and last bytes are outside the cut set, with only cut-set bytes removed
      on either side. */
  function Trim(s: seq<byte>): (r: seq<byte>)
    ensures r == [] || (!InCutset(r[0]) && !InCutset(r[|r| - 1]))
    ensures exists lo: nat :: PaddedAround(s, lo, r)
  {
    var t := TrimRight(s);
    var r := TrimLeft(t);
    var lo := |t| - |r|;
    assert AllCut(s[..lo]) by {
      assert s[..lo] == t[..lo];
    }
    assert r == s[lo..lo + |r|];
    assert AllCut(s[lo + |r|..]) by {
      assert lo + |r| == |t|;
    }
    assert PaddedAround(s, lo, r);
    r
  }

  /** The reply to a 'G' request: nothing when the first buffer byte is
      zero, the trimmed buffer otherwise. */
  function GetResponse(secret: seq<byte>): (out: seq<byte>)
    requires |secret| > 0
    ensures secret[0] == Nul ==> out == []
    ensures secret[0] != Nul ==> exists lo: nat :: PaddedAround(secret, lo, out)
    ensures out == [] || (!InCutset(out[0]) && !InCutset(out[|out| - 1]))
    ensures |out| <= |secret|
  {
    if secret[0] != Nul then Trim(secret) else []
  }

  /** Go's `copy(dst, src)`: the first min(|dst|, |src|) bytes come from
      `src`, the rest of `dst` is kept. */
  function CopyInto(dst: seq<byte>, src: seq<byte>): (r: seq<byte>)
    ensures |r| == |dst|
    ensures forall i :: 0 <= i < |r| ==> r[i] == if i < |src| then src[i] else dst[i]
  {
    var m := Min(|dst|, |src|);
    src[..m] + dst[m..]
  }

  /** The secret after a 'P' request: the buffer is wiped to zeros, then the
      payload is copied in. No byte of the previous secret survives. */
  function Overwrite(secret: seq<byte>, payload: seq<byte>): (r: seq<byte>)
    ensures |r| == |secret|
    ensures forall i :: 0 <= i < |r| ==> r[i] == if i < |payload| then payload[i] else Nul
  {
    CopyInto(Zeros(|secret|), payload)
  }

  /** One connection carrying `input`, applied to the stored `secret`. */
  function Handle(secret: seq<byte>, input: seq<byte>): (t: Transition)
    requires |secret| > 0
    ensures |t.secret| == |secret|
    ensures !t.outcome.Ok? ==> t.secret == secret
    ensures t.outcome.Ok? && t.outcome.output != [] ==> t.secret == secret
  {
    match ReadLine(input)
    case None => Transition(ReadError, secret)
    case Some(line) =>
      if !LengthOk(|line|, |secret|) then Transition(LengthError(|line|), secret)
      else if line[0] == Get then Transition(Ok(GetResponse(secret)), secret)
      else if line[0] == Put then Transition(Ok([]), Overwrite(secret, line[CmdSize..]))
      else Transition(Ok([]), secret)
  }
}
