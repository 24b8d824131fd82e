/** A TCP socket, as far as the HTTP classes see it. */
module Sockets {

  class Socket {
    /** Received and not yet read. */
    var incoming: string
    /** Everything written so far. */
    var outgoing: string
    var open: bool
    /** How many writes have failed. */
    var failures: nat

    constructor ()
      ensures incoming == "" && outgoing == "" && open && failures == 0
    {
      incoming, outgoing, open, failures := "", "", true, 0;
    }

    /** More bytes arrive. */
    method Receive(piece: string)
      modifies this`incoming
      ensures incoming == if open then old(incoming) + piece else old(incoming)
    {
      if open {
        incoming := incoming + piece;
      }
    }

    /** Some bytes, at most `max` of them and none beyond the end of a line. */
    method ReadLine(max: nat) returns (data: string)
      requires max > 0
      modifies this`incoming
      ensures old(incoming) == data + incoming && |data| <= max && (old(incoming) != "" ==> data != "")
      ensures |data| > 0 ==> '\n' !in data[..|data| - 1]
    {
      if incoming == "" {
        return "";
      }
      assert incoming[..1][..0] == "";
      var n: nat :| 1 <= n <= |incoming| && n <= max && '\n' !in incoming[..n][..n - 1];
      data := incoming[..n];
      incoming := incoming[n..];
    }

    /** Some bytes, at most `max` of them; none for a `max` that is not positive. */
    method Read(max: int) returns (data: string)
      modifies this`incoming
      ensures old(incoming) == data + incoming
      ensures if max > 0 && old(incoming) != "" then 0 < |data| <= max else data == ""
    {
      if incoming == "" || max <= 0 {
        return "";
      }
      var n: nat :| 1 <= n <= |incoming| && n <= max;
      data := incoming[..n];
      incoming := incoming[n..];
    }

    /** Takes as much of the data as it likes, at least a byte; or fails and takes nothing. */
    method Write(data: string) returns (written: int)
      requires open && data != ""
      modifies this`outgoing, this`failures
      ensures if written == -1 then failures == old(failures) + 1 && outgoing == old(outgoing)
              else 0 < written <= |data| && failures == old(failures) && outgoing == old(outgoing) + data[..written]
    {
      var fails: bool := *;
      if fails {
        failures := failures + 1;
        return -1;
      }
      written :| 0 < written <= |data|;
      outgoing := outgoing + data[..written];
    }

    /** Takes a short text at once, or fails. */
    method WriteShort(text: string)
      requires open
      modifies this`outgoing, this`failures
      ensures Sent(open, old(outgoing), old(failures), outgoing, failures, text)
    {
      var fails: bool := *;
      if fails {
        failures := failures + 1;
      } else {
        outgoing := outgoing + text;
      }
      assert text[..0] == "" && text[..|text|] == text && old(outgoing) + "" == old(outgoing);
      SentSome(old(outgoing), old(failures), outgoing, failures, text, if fails then 0 else |text|);
    }

    /** Closes the connection; what was not read is lost. */
    method Disconnect()
      modifies this
      ensures !open && incoming == "" && outgoing == old(outgoing) && failures == old(failures)
    {
      open, incoming := false, "";
    }
  }

  /** `t` is what is left of `s` when some of it is lost. */
  ghost predicate LeftOf(t: string, s: string)
    decreases |s|
  {
    if s == "" then t == ""
    else (t != "" && t[0] == s[0] && LeftOf(t[1..], s[1..])) || LeftOf(t, s[1..])
  }

  lemma {:induction false} NothingLeft(s: string)
    ensures LeftOf("", s)
  {
    if s != "" {
      NothingLeft(s[1..]);
    }
  }

  lemma {:induction false} PrefixLeft(s: string, n: nat)
    requires n <= |s|
    ensures LeftOf(s[..n], s)
  {
    if n == 0 {
      NothingLeft(s);
    } else {
      PrefixLeft(s[1..], n - 1);
      assert s[..n][1..] == s[1..][..n - 1];
    }
  }

  lemma {:induction false} BothLeft(t: string, x: string, u: string, y: string)
    requires LeftOf(t, x) && LeftOf(u, y)
    ensures LeftOf(t + u, x + y)
    decreases |x|
  {
    if x == "" {
      assert t + u == u && x + y == y;
    } else {
      assert (x + y)[1..] == x[1..] + y;
      if LeftOf(t, x[1..]) {
        BothLeft(t, x[1..], u, y);
      } else {
        BothLeft(t[1..], x[1..], u, y);
        assert (t + u)[1..] == t[1..] + u;
      }
    }
  }

  /** Nothing written is taken back. Unless a write failed, `data` has been added; if one did, some of it may be
      lost, and nothing else is added. Nothing at all is added once closed. */
  ghost predicate Sent(open: bool, before: string, failed: nat, after: string, failed': nat, data: string) {
    && failed <= failed' && before <= after
    && LeftOf(after[|before|..], if open then data else "")
    && (failed' == failed ==> after == before + if open then data else "")
  }

  lemma SentNothing(open: bool, before: string, failed: nat)
    ensures Sent(open, before, failed, before, failed, "")
  {
  }

  /** The first `n` bytes are sent: all of them, or up to a failure. */
  lemma SentSome(before: string, f: nat, after: string, f': nat, data: string, n: nat)
    requires n <= |data| && after == before + data[..n] && f <= f' && (f' == f ==> n == |data|)
    ensures Sent(true, before, f, after, f', data)
  {
    PrefixLeft(data, n);
    assert after[|before|..] == data[..n];
    hide LeftOf;
  }

  lemma SentBoth(open: bool, before: string, f0: nat, between: string, f1: nat, after: string, f2: nat,
                 x: string, y: string)
    requires Sent(open, before, f0, between, f1, x) && Sent(open, between, f1, after, f2, y)
    ensures Sent(open, before, f0, after, f2, x + y)
  {
    var t, u := between[|before|..], after[|between|..];
    assert after[|before|..] == t + u;
    if open {
      BothLeft(t, x, u, y);
      hide LeftOf;
      assert before + x + y == before + (x + y);
    } else {
      assert t == "" && u == "" && t + u == "" && after == before;
    }
  }
}
