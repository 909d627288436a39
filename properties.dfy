/** What one connection, or a sequence of them, does to the stored secret and
    what it sends back, stated over `Handle`. Requests are written as a line
    body (command byte and payload, no delimiter), the delimiter, and
    whatever the client sent after it. */
module Properties {
  import opened Protocol

  /** The secret as a 'P' request with payload `p` leaves it in a buffer of
      `n` bytes: the payload, then the delimiter if there is room for it,
      then zeros. */
  function Stored(p: seq<byte>, n: nat): (r: seq<byte>)
    requires |p| <= n
    ensures |r| == n && r[..|p|] == p
    ensures |p| < n ==> r[|p|] == Newline
    ensures forall i :: |p| < i < n ==> r[i] == Nul
  {
    if |p| < n then p + [Newline] + Zeros(n - |p| - 1) else p
  }

  lemma {:induction false} TrimLeftExact(a: seq<byte>, m: seq<byte>)
    requires AllCut(a)
    requires m == [] || !InCutset(m[0])
    ensures TrimLeft(a + m) == m
  {
    if a != [] {
      assert (a + m)[1..] == a[1..] + m;
      TrimLeftExact(a[1..], m);
    }
  }

  lemma {:induction false} TrimRightExact(m: seq<byte>, b: seq<byte>)
    requires AllCut(b)
    requires m == [] || !InCutset(m[|m| - 1])
    ensures TrimRight(m + b) == m
  {
    if b != [] {
      assert (m + b)[..|m + b| - 1] == m + b[..|b| - 1];
      TrimRightExact(m, b[..|b| - 1]);
    } else {
      assert m + b == m;
    }
  }

  /** Trimming undoes padding: cut-set bytes around a value that neither
      starts nor ends with one are removed and nothing else is. */
  lemma TrimExact(a: seq<byte>, m: seq<byte>, b: seq<byte>)
    requires AllCut(a) && AllCut(b)
    requires m == [] || (!InCutset(m[0]) && !InCutset(m[|m| - 1]))
    ensures Trim(a + m + b) == m
  {
    if m == [] {
      assert a + m + b == [] + (a + b);
      TrimRightExact([], a + b);
      assert TrimLeft([]) == [];
    } else {
      assert a + m + b == (a + m) + b;
      TrimRightExact(a + m, b);
      TrimLeftExact(a, m);
    }
  }

  /** The first line of `body + [Newline] + rest` is `body + [Newline]`. */
  lemma FirstLine(body: seq<byte>, rest: seq<byte>)
    requires Newline !in body
    ensures ReadLine(body + [Newline] + rest) == Some(body + [Newline])
  {
    var input := body + [Newline] + rest;
    assert input[|body|] == Newline;
    assert input[..|body|] == body;
    assert input[..|body| + 1] == body + [Newline];
  }

  /** The connection is one-shot: bytes after the first delimiter are
      ignored. */
  lemma OnlyFirstLineCounts(secret: seq<byte>, body: seq<byte>, rest: seq<byte>)
    requires |secret| > 0 && Newline !in body
    ensures Handle(secret, body + [Newline] + rest) == Handle(secret, body + [Newline])
  {
    FirstLine(body, rest);
    FirstLine(body, []);
    assert body + [Newline] + [] == body + [Newline];
  }

  /** A read error is reported exactly when no delimiter arrives, and then
      the secret is unchanged. */
  lemma ReadErrorIffNoDelimiter(secret: seq<byte>, input: seq<byte>)
    requires |secret| > 0
    ensures Handle(secret, input).outcome == ReadError <==> Newline !in input
    ensures Newline !in input ==> Handle(secret, input) == Transition(ReadError, secret)
  {
  }

  /** A line whose length, delimiter included, is outside 2 .. size + 2 is
      rejected with exactly that length and leaves the secret unchanged;
      a line inside the range is never a length error. */
  lemma LengthErrorIffOutOfRange(secret: seq<byte>, body: seq<byte>, rest: seq<byte>)
    requires |secret| > 0 && Newline !in body
    ensures Handle(secret, body + [Newline] + rest).outcome.LengthError?
        <==> |body| + 1 < CmdSize + 1 || |body| + 1 > CmdSize + |secret| + 1
    ensures Handle(secret, body + [Newline] + rest).outcome.LengthError? ==>
        Handle(secret, body + [Newline] + rest) == Transition(LengthError(|body| + 1), secret)
  {
    FirstLine(body, rest);
  }

  /** A bare delimiter is a length error citing length 1. */
  lemma BareDelimiterRejected(secret: seq<byte>)
    requires |secret| > 0
    ensures Handle(secret, [Newline]) == Transition(LengthError(1), secret)
  {
    LengthErrorIffOutOfRange(secret, [], []);
    assert [] + [Newline] + [] == [Newline];
  }

  /** 'G' with a line of acceptable length writes the trimmed secret and
      changes nothing; whatever follows the command byte is ignored. */
  lemma GetOnlyReads(secret: seq<byte>, p: seq<byte>, rest: seq<byte>)
    requires |secret| > 0 && |p| <= |secret| && Newline !in p
    ensures Handle(secret, [Get] + p + [Newline] + rest)
         == Transition(Ok(GetResponse(secret)), secret)
  {
    assert Newline !in [Get] + p;
    FirstLine([Get] + p, rest);
  }

  /** An unrecognised command byte is a silent no-op that reports success. */
  lemma UnknownCommandIsNoOp(secret: seq<byte>, c: byte, p: seq<byte>, rest: seq<byte>)
    requires |secret| > 0 && |p| <= |secret|
    requires c != Get && c != Put && c != Newline && Newline !in p
    ensures Handle(secret, [c] + p + [Newline] + rest) == Transition(Ok([]), secret)
  {
    assert Newline !in [c] + p;
    FirstLine([c] + p, rest);
  }

  /** Wiping and then copying `p` and its delimiter gives `Stored(p, size)`. */
  lemma OverwriteStores(secret: seq<byte>, p: seq<byte>)
    requires |p| <= |secret|
    ensures Overwrite(secret, p + [Newline]) == Stored(p, |secret|)
  {
    var r := Overwrite(secret, p + [Newline]);
    var s := Stored(p, |secret|);
    forall i | 0 <= i < |secret| ensures r[i] == s[i] {
      if i < |p| {
        assert s[..|p|][i] == s[i];
      }
    }
  }

  /** 'P' replaces the secret by `Stored(p, size)` whatever it held before:
      the payload, the delimiter when it fits, then zeros. */
  lemma PutStores(secret: seq<byte>, p: seq<byte>, rest: seq<byte>)
    requires |secret| > 0 && |p| <= |secret| && Newline !in p
    ensures Handle(secret, [Put] + p + [Newline] + rest)
         == Transition(Ok([]), Stored(p, |secret|))
  {
    var body := [Put] + p;
    assert Newline !in body;
    FirstLine(body, rest);
    assert (body + [Newline])[CmdSize..] == p + [Newline];
    OverwriteStores(secret, p);
  }

  /** Trimming a stored payload with no NUL at either end gives it back. */
  lemma TrimStored(p: seq<byte>, n: nat)
    requires 0 < n && |p| <= n && Newline !in p
    requires p == [] || (p[0] != Nul && p[|p| - 1] != Nul)
    ensures Trim(Stored(p, n)) == p
    ensures Stored(p, n)[0] != Nul
  {
    var s := Stored(p, n);
    if p != [] {
      assert p[|p| - 1] in p;
    }
    if |p| < n {
      var pad := [Newline] + Zeros(n - |p| - 1);
      assert s == [] + p + pad;
      TrimExact([], p, pad);
      if p == [] { assert s[0] == pad[0]; }
    } else {
      assert s == [] + p + [];
      TrimExact([], p, []);
    }
  }

  /** Reading a stored payload gives it back when it neither starts nor
      ends with NUL. */
  lemma GetStored(p: seq<byte>, n: nat)
    requires 0 < n && |p| <= n && Newline !in p
    requires p == [] || (p[0] != Nul && p[|p| - 1] != Nul)
    ensures GetResponse(Stored(p, n)) == p
  {
    TrimStored(p, n);
  }

  /** A 'G' request on a buffer holding a stored payload with no NUL at
      either end returns that payload. */
  lemma GetAfterPut(p: seq<byte>, n: nat)
    requires 0 < n && |p| <= n && Newline !in p
    requires p == [] || (p[0] != Nul && p[|p| - 1] != Nul)
    ensures Handle(Stored(p, n), [Get, Newline]) == Transition(Ok(p), Stored(p, n))
  {
    var s := Stored(p, n);
    assert Handle(s, [Get, Newline]) == Transition(Ok(GetResponse(s)), s) by {
      GetOnlyReads(s, [], []);
      assert [Get] + [] + [Newline] + [] == [Get, Newline];
    }
    assert GetResponse(s) == p by {
      GetStored(p, n);
    }
  }

  /** Writing then reading returns the payload, for any payload that fits
      the buffer, has no delimiter and neither starts nor ends with NUL. */
  lemma RoundTrip(secret: seq<byte>, p: seq<byte>, rest: seq<byte>)
    requires |secret| > 0 && |p| <= |secret| && Newline !in p
    requires p == [] || (p[0] != Nul && p[|p| - 1] != Nul)
    ensures Handle(secret, [Put] + p + [Newline] + rest).outcome == Ok([])
    ensures var s := Handle(secret, [Put] + p + [Newline] + rest).secret;
      Handle(s, [Get, Newline]) == Transition(Ok(p), s)
  {
    PutStores(secret, p, rest);
    GetAfterPut(p, |secret|);
  }

  /** A freshly allocated (all-zero) cell answers 'G' with nothing. */
  lemma FreshCellReadsEmpty(n: nat)
    requires n > 0
    ensures Handle(Zeros(n), [Get, Newline]) == Transition(Ok([]), Zeros(n))
  {
    GetOnlyReads(Zeros(n), [], []);
    assert [Get] + [] + [Newline] + [] == [Get, Newline];
  }

  /** A payload starting with NUL is stored but reads back as nothing: the
      'G' branch takes a zero first byte to mean an empty cell. */
  lemma LeadingNulSecretReadsEmpty(secret: seq<byte>, p: seq<byte>, rest: seq<byte>)
    requires |secret| > 0 && |p| <= |secret| && Newline !in p
    requires p != [] && p[0] == Nul
    ensures var t := Handle(secret, [Put] + p + [Newline] + rest);
      Handle(t.secret, [Get, Newline]) == Transition(Ok([]), t.secret)
  {
    PutStores(secret, p, rest);
    var s := Stored(p, |secret|);
    assert s[..|p|][0] == s[0];
    GetOnlyReads(s, [], []);
    assert [Get] + [] + [Newline] + [] == [Get, Newline];
  }

  /** 'G' never writes a delimiter or NUL at either end of its reply. */
  lemma GetReplyIsTrimmed(secret: seq<byte>, input: seq<byte>)
    requires |secret| > 0
    requires Handle(secret, input).outcome.Ok?
    ensures var out := Handle(secret, input).outcome.output;
      out == [] || (!InCutset(out[0]) && !InCutset(out[|out| - 1]))
  {
  }

  /** A client that sends "G" and closes without a delimiter gets a read
      error, not a length error. */
  lemma UnterminatedGetIsReadError(secret: seq<byte>)
    requires |secret| > 0
    ensures Handle(secret, [Get]) == Transition(ReadError, secret)
  {
    ReadErrorIffNoDelimiter(secret, [Get]);
  }

  /** "P1234testing\n" on a 12-byte buffer, then "G\n", returns
      "1234testing". */
  lemma SimulatedClient(secret: seq<byte>)
    requires |secret| == 12
    ensures var p := [49, 50, 51, 52, 116, 101, 115, 116, 105, 110, 103];
      var t := Handle(secret, [Put] + p + [Newline]);
      t.outcome == Ok([]) && Handle(t.secret, [Get, Newline]).outcome == Ok(p)
  {
    var p: seq<byte> := [49, 50, 51, 52, 116, 101, 115, 116, 105, 110, 103];
    assert Newline !in p;
    RoundTrip(secret, p, []);
    assert [Put] + p + [Newline] + [] == [Put] + p + [Newline];
  }
}
