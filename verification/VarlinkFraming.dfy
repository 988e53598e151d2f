/**
 The framing of the ask-password Varlink service: requests end in a NUL byte, reads cut the stream
 anywhere, and a buffer carries what has not been ended yet.
 */
module VarlinkFraming {
  import opened Bytes

  type Message = seq<byte>

  /** The position of the first NUL, or |s|. */
  function FirstNul(s: seq<byte>): (k: nat)
    ensures k <= |s| && 0 !in s[..k] && (k < |s| ==> s[k] == 0)
  {
    if s == [] || s[0] == 0 then 0 else 1 + FirstNul(s[1..])
  }

  /** The NUL-terminated pieces of a stream. */
  function Messages(s: seq<byte>): seq<Message>
    decreases |s|
  {
    var k := FirstNul(s);
    if k == |s| then [] else [s[..k]] + Messages(s[k + 1..])
  }

  /** What follows the last NUL. */
  function Rest(s: seq<byte>): seq<byte>
    decreases |s|
  {
    var k := FirstNul(s);
    if k == |s| then s else Rest(s[k + 1..])
  }

  /** Messages with their terminators. */
  function Frames(messages: seq<Message>): seq<byte>
  {
    if messages == [] then [] else messages[0] + [0] + Frames(messages[1..])
  }

  lemma {:induction false} FirstNulOf(m: Message, rest: seq<byte>)
    requires 0 !in m
    ensures FirstNul(m + [0] + rest) == |m|
  {
    if m == [] {
      assert m + [0] + rest == [0] + rest;
    } else {
      assert (m + [0] + rest)[1..] == m[1..] + [0] + rest;
      FirstNulOf(m[1..], rest);
    }
  }

  lemma {:induction false} NoNul(s: seq<byte>)
    requires 0 !in s
    ensures FirstNul(s) == |s|
  {
    if s != [] {
      NoNul(s[1..]);
    }
  }

  lemma OneMessage(m: Message, rest: seq<byte>)
    requires 0 !in m
    ensures Messages(m + [0] + rest) == [m] + Messages(rest) && Rest(m + [0] + rest) == Rest(rest)
  {
    FirstNulOf(m, rest);
    assert (m + [0] + rest)[..|m|] == m && (m + [0] + rest)[|m| + 1..] == rest;
  }

  /** Messages and rest are the stream, cut; and framing is the way back. */
  lemma {:induction false} FramesOfMessages(s: seq<byte>)
    ensures Frames(Messages(s)) + Rest(s) == s
    ensures 0 !in Rest(s) && forall k :: 0 <= k < |Messages(s)| ==> 0 !in Messages(s)[k]
    decreases |s|
  {
    hide Messages, Rest, FirstNul;
    var k := FirstNul(s);
    if k < |s| {
      var m, after := s[..k], s[k + 1..];
      assert s == m + [0] + after;
      FramesOfMessages(after);
      OneMessage(m, after);
      assert Messages(s)[1..] == Messages(after);
    } else {
      assert s[..k] == s;
      Drained(s);
    }
  }

  lemma {:induction false} MessagesOfFrames(messages: seq<Message>, rest: seq<byte>)
    requires 0 !in rest && forall k :: 0 <= k < |messages| ==> 0 !in messages[k]
    ensures Messages(Frames(messages) + rest) == messages && Rest(Frames(messages) + rest) == rest
  {
    hide Messages, Rest, FirstNul;
    if messages == [] {
      assert Frames(messages) + rest == rest;
      NoNul(rest);
      Drained(rest);
    } else {
      MessagesOfFrames(messages[1..], rest);
      OneMessage(messages[0], Frames(messages[1..]) + rest);
      assert Frames(messages) + rest == messages[0] + [0] + (Frames(messages[1..]) + rest);
      assert messages == [messages[0]] + messages[1..];
    }
  }

  /** More input only adds to the messages, starting from the rest. */
  lemma {:induction false} MessagesAppend(a: seq<byte>, b: seq<byte>)
    ensures Messages(a + b) == Messages(a) + Messages(Rest(a) + b)
    ensures Rest(a + b) == Rest(Rest(a) + b)
    decreases |a|
  {
    hide Messages, Rest, FirstNul;
    var k := FirstNul(a);
    if k < |a| {
      var m, after := a[..k], a[k + 1..];
      assert a == m + [0] + after;
      MessagesAppend(after, b);
      OneMessage(m, after);
      OneMessage(m, after + b);
      assert a + b == m + [0] + (after + b);
    } else {
      Drained(a);
    }
  }

  lemma Drained(buf: seq<byte>)
    requires FirstNul(buf) == |buf|
    ensures Messages(buf) == [] && Rest(buf) == buf
  {
  }

  // ---------- the connection ----------

  /** One read: some bytes, or the end of the stream or an error. */
  datatype Read = Data(bytes: seq<byte>) | Closed

  /** All bytes read before the stream ends. */
  function Stream(inputs: seq<Read>): seq<byte>
  {
    if inputs == [] || inputs[0].Closed? then [] else inputs[0].bytes + Stream(inputs[1..])
  }

  /** The messages served when reply `n` is written if `sent(n)`: all up to the first reply that is not. */
  function Served(messages: seq<Message>, n: nat, sent: nat -> bool): seq<Message>
  {
    if messages == [] then []
    else if sent(n) then [messages[0]] + Served(messages[1..], n + 1, sent)
    else [messages[0]]
  }

  predicate AllSent(count: nat, sent: nat -> bool) { forall k: nat :: k < count ==> sent(k) }

  lemma {:induction false} ServedAll(messages: seq<Message>, n: nat, sent: nat -> bool)
    requires forall k: nat :: n <= k < n + |messages| ==> sent(k)
    ensures Served(messages, n, sent) == messages
  {
    if messages != [] {
      ServedAll(messages[1..], n + 1, sent);
    }
  }

  lemma {:induction false} ServedUntil(a: seq<Message>, m: Message, b: seq<Message>, n: nat, sent: nat -> bool)
    requires forall k: nat :: n <= k < n + |a| ==> sent(k)
    requires !sent(n + |a|)
    ensures Served(a + [m] + b, n, sent) == a + [m]
  {
    if a != [] {
      assert (a + [m] + b)[1..] == a[1..] + [m] + b;
      ServedUntil(a[1..], m, b, n + 1, sent);
    }
  }

  /** Serves what the buffer holds complete messages of. */
  method ServeBuffer(buf0: seq<byte>, served0: seq<Message>, sent: nat -> bool)
    returns (buf: seq<byte>, served: seq<Message>, failed: bool)
    requires AllSent(|served0|, sent)
    ensures !failed ==> served == served0 + Messages(buf0) && buf == Rest(buf0) && AllSent(|served|, sent)
    ensures failed ==> served0 < served && served <= served0 + Messages(buf0)
    ensures failed ==> AllSent(|served| - 1, sent) && !sent(|served| - 1)
  {
    hide Messages, Rest, FirstNul;
    buf, served := buf0, served0;
    while FirstNul(buf) < |buf|
      invariant served0 <= served && AllSent(|served|, sent)
      invariant served + Messages(buf) == served0 + Messages(buf0) && Rest(buf) == Rest(buf0)
      decreases |buf|
    {
      var pos := FirstNul(buf);
      var message, after := buf[..pos], buf[pos + 1..];
      assert buf == message + [0] + after;
      OneMessage(message, after);
      assert served + ([message] + Messages(after)) == served + [message] + Messages(after);
      buf, served := after, served + [message];
      if !sent(|served| - 1) {
        return buf, served, true;
      }
    }
    Drained(buf);
    failed := false;
  }

  /**
   One connection.  However the stream is cut into reads, the messages served are those of the whole
   stream in order, and at the end of every read the buffer is what follows the last NUL.
   */
  method HandleConnection(inputs: seq<Read>, sent: nat -> bool) returns (served: seq<Message>, buf: seq<byte>)
    ensures served == Served(Messages(Stream(inputs)), 0, sent)
    ensures AllSent(|served|, sent) ==> served == Messages(Stream(inputs)) && buf == Rest(Stream(inputs))
  {
    hide Messages, Rest, Served;
    buf, served := [], [];
    var i := 0;
    assert inputs[0..] == inputs && [] + Stream(inputs) == Stream(inputs);
    NothingYet();
    while i < |inputs| && inputs[i].Data?
      invariant i <= |inputs| && AllSent(|served|, sent)
      invariant served + Messages(buf + Stream(inputs[i..])) == Messages(Stream(inputs))
      invariant Rest(buf + Stream(inputs[i..])) == Rest(Stream(inputs))
      invariant Messages(buf) == [] && Rest(buf) == buf
    {
      var chunk := inputs[i].bytes;
      ghost var later := Stream(inputs[i + 1..]);
      assert Stream(inputs[i..]) == chunk + later by { StreamStep(inputs, i); }
      assert buf + (chunk + later) == buf + chunk + later;
      MessagesAppend(buf + chunk, later);
      var failed;
      ghost var before := served;
      ghost var whole := buf + chunk;
      buf, served, failed := ServeBuffer(buf + chunk, served, sent);
      assert before + (Messages(whole) + Messages(Rest(whole) + later)) == before + Messages(whole) + Messages(Rest(whole) + later);
      assert before + Messages(whole) + Messages(Rest(whole) + later) == Messages(Stream(inputs));
      if failed {
        FailedPrefix(served, Messages(Stream(inputs)), sent);
        return;
      }
      FramesOfMessages(whole);
      NoNul(buf);
      Drained(buf);
      i := i + 1;
    }
    assert Stream(inputs[i..]) == [] && buf + [] == buf;
    assert served == Messages(Stream(inputs));
    ServedAll(served, 0, sent);
  }

  lemma NothingYet()
    ensures Messages([]) == [] && Rest([]) == []
  {
  }

  lemma StreamStep(inputs: seq<Read>, i: nat)
    requires i < |inputs| && inputs[i].Data?
    ensures Stream(inputs[i..]) == inputs[i].bytes + Stream(inputs[i + 1..])
  {
    assert inputs[i..][1..] == inputs[i + 1..];
  }

  lemma FailedPrefix(served: seq<Message>, all: seq<Message>, sent: nat -> bool)
    requires served != [] && served <= all
    requires AllSent(|served| - 1, sent) && !sent(|served| - 1)
    ensures served == Served(all, 0, sent) && !AllSent(|served|, sent)
  {
    var n := |served| - 1;
    ServedUntil(served[..n], served[n], all[n + 1..], 0, sent);
    assert all == served[..n] + [served[n]] + all[n + 1..];
    assert served == served[..n] + [served[n]];
  }
}
