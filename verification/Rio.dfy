/** csapp.c's robust I/O. read and write are scripted: every way they may split, interrupt or
    fail is some script. */
module Rio {
  import opened Basics
  import opened Words

  type Byte = b: int | 0 <= b < 256

  const NEWLINE: Byte := 10
  const BUFSIZE: nat := 8192

  /** What the next system call does: move at most n bytes (a read at least one, if it can),
      return -1 with EINTR, or return -1 with another error. */
  datatype Event = Chunk(n: nat) | Interrupted | Failed

  datatype Errno = NoError | EINTR | Other

  /** The bytes a read call that asks for n of them moves when so many are there. */
  function Got(e: Event, n: nat): nat {
    if !e.Chunk? then 0 else if e.n == 0 then Min(1, n) else Min(e.n, n)
  }

  /** How reading on ends: with a failure after n bytes, or at the end of the stream with the script
      rest still to come. */
  datatype Fate = After(n: nat) | Ends(rest: seq<Event>) {
    /** The same, seen k bytes earlier. */
    function Later(k: nat): Fate {
      if After? then After(n + k) else this
    }

    /** The failure comes before need bytes are moved. */
    predicate Before(need: int) {
      After? && n < need
    }
  }

  /** How calls that ask for at most cap bytes fare on a descriptor with avail bytes left: they stop
      at an error that is not an interruption, or when one of them finds the end. */
  function FateOf(script: seq<Event>, avail: nat, cap: nat): Fate {
    if script == [] then Ends([])
    else match script[0]
      case Failed => After(0)
      case Interrupted => FateOf(script[1..], avail, cap)
      case Chunk(_) =>
        var c := Min(Got(script[0], cap), avail);
        if c == 0 then Ends(script[1..]) else FateOf(script[1..], avail - c, cap).Later(c)
  }

  /** f is the fate of the calls, folded. */
  ghost predicate IsFate(script: seq<Event>, avail: nat, cap: nat, f: Fate) {
    forall i {:trigger Unfold(i)} :: Unfold(i) ==> f == FateOf(script, avail, cap)
  }

  /** FateOf, unfolded on demand only. */
  ghost function Outlook(script: seq<Event>, avail: nat, cap: nat): Fate {
    assert IsFate(script, avail, cap, FateOf(script, avail, cap));
    var f :| IsFate(script, avail, cap, f);
    f
  }

  lemma OutlookIs(script: seq<Event>, avail: nat, cap: nat)
    ensures Outlook(script, avail, cap) == FateOf(script, avail, cap)
  {
    assert Unfold(0);
  }

  /** What one call does to the fate of the calls. */
  lemma OutlookNext(script: seq<Event>, avail: nat, cap: nat)
    ensures
      var now := Outlook(script, avail, cap);
      if script == [] then now == Ends([])
      else if script[0].Failed? then now == After(0)
      else if script[0].Interrupted? then now == Outlook(script[1..], avail, cap)
      else
        var c := Min(Got(script[0], cap), avail);
        now == if c == 0 then Ends(script[1..]) else Outlook(script[1..], avail - c, cap).Later(c)
  {
    OutlookIs(script, avail, cap);
    if script != [] {
      OutlookIs(script[1..], avail, cap);
      OutlookIs(script[1..], avail - Min(Got(script[0], cap), avail), cap);
    }
  }

  /** With its script used up no call fails. */
  lemma OutlookEnds(avail: nat, cap: nat)
    ensures Outlook([], avail, cap) == Ends([])
  {
    OutlookIs([], avail, cap);
  }

  /** What the calls of a script would move if the stream had no end. */
  function Gained(script: seq<Event>, cap: nat): nat {
    if script == [] then 0 else Got(script[0], cap) + Gained(script[1..], cap)
  }

  /** Call i is the first to fail, it is made with less than need bytes moved, and no call before it
      has found the end. */
  ghost predicate FailsAt(script: seq<Event>, avail: nat, cap: nat, need: int, i: int) {
    && 0 <= i < |script| && script[i].Failed?
    && Min(Gained(script[..i], cap), avail) < need
    && forall j :: 0 <= j < i ==> !script[j].Failed? && (script[j].Chunk? ==> Gained(script[..j], cap) < avail)
  }

  lemma FailsAtNext(script: seq<Event>, avail: nat, cap: nat, need: int, i: int)
    requires cap > 0 && script != [] && i > 0 && !script[0].Failed? && (script[0].Chunk? ==> avail > 0)
    ensures
      var c := Min(Got(script[0], cap), avail);
      FailsAt(script, avail, cap, need, i) <==> FailsAt(script[1..], avail - c, cap, need - c, i - 1)
  {
    var c, rest := Min(Got(script[0], cap), avail), script[1..];
    forall j {:trigger script[..j]} | 0 < j <= |script|
      ensures Gained(script[..j], cap) == Got(script[0], cap) + Gained(rest[..j - 1], cap)
    {
      assert script[..j][1..] == rest[..j - 1];
    }
    forall j {:trigger rest[..j]} | 0 <= j <= |rest|
      ensures Gained(rest[..j], cap) == Gained(script[..j + 1], cap) - Got(script[0], cap)
    {
      assert script[..j + 1][1..] == rest[..j];
    }
    if FailsAt(script, avail, cap, need, i) {
      forall j | 0 <= j < i - 1
        ensures !rest[j].Failed? && (rest[j].Chunk? ==> Gained(rest[..j], cap) < avail - c)
      {
        assert rest[j] == script[j + 1];
      }
    }
    if FailsAt(rest, avail - c, cap, need - c, i - 1) {
      forall j | 0 <= j < i
        ensures !script[j].Failed? && (script[j].Chunk? ==> Gained(script[..j], cap) < avail)
      {
        if j > 0 {
          assert rest[j - 1] == script[j];
        }
      }
    }
  }

  /** Reading fails before need bytes exactly when some call that is made by then fails. */
  lemma {:induction false} FateIs(script: seq<Event>, avail: nat, cap: nat, need: int)
    requires cap > 0
    ensures FateOf(script, avail, cap).Before(need) <==> exists i :: FailsAt(script, avail, cap, need, i)
  {
    if script != [] {
      if script[0].Failed? {
        assert script[..0] == [];
        assert need > 0 ==> FailsAt(script, avail, cap, need, 0);
      } else {
        var c := Min(Got(script[0], cap), avail);
        assert Gained(script[..0], cap) == 0;
        if script[0].Chunk? && avail == 0 {
          assert c == 0;
        } else {
          FateIs(script[1..], avail - c, cap, need - c);
          forall i: int | i > 0
            ensures FailsAt(script, avail, cap, need, i) <==> FailsAt(script[1..], avail - c, cap, need - c, i - 1)
          {
            FailsAtNext(script, avail, cap, need, i);
          }
          var rest, left, more := script[1..], avail - c, need - c;
          if i :| FailsAt(rest, left, cap, more, i) {
            assert FailsAt(script, avail, cap, need, i + 1);
          }
        }
      }
    }
  }

  /** An open descriptor: the bytes not yet read, the bytes written, and the script. A call
      beyond the script's end moves everything asked for. */
  class Descriptor {
    var unread: seq<Byte>
    var written: seq<Byte>
    var script: seq<Event>
    var errno: Errno

    constructor (unread: seq<Byte>, script: seq<Event>)
      ensures this.unread == unread && this.script == script && written == [] && errno == NoError
    {
      this.unread := unread;
      this.written := [];
      this.script := script;
      errno := NoError;
    }

    /** read(2): the bytes moved, and their count or -1. */
    method Read(n: nat) returns (cnt: int, bytes: seq<Byte>)
      requires n > 0
      modifies this`unread, this`script, this`errno
      ensures cnt == -1 || cnt == |bytes|
      ensures cnt == -1 <==> old(script) != [] && !old(script)[0].Chunk?
      ensures cnt == -1 ==> bytes == [] && errno == if old(script)[0].Interrupted? then EINTR else Other
      ensures cnt != -1 ==> errno == old(errno)
      ensures cnt != -1 ==> cnt == Min(if old(script) == [] then n else Got(old(script)[0], n), |old(unread)|)
      ensures |bytes| <= n && old(unread) == bytes + unread
      ensures script == if old(script) == [] then [] else old(script)[1..]
    {
      if script == [] {
        cnt := if n <= |unread| then n else |unread|;
      } else {
        var e := script[0];
        script := script[1..];
        match e {
          case Chunk(k) =>
            cnt := if k == 0 then 1 else k;
            cnt := if cnt <= n then cnt else n;
            cnt := if cnt <= |unread| then cnt else |unread|;
          case Interrupted =>
            errno := EINTR;
            return -1, [];
          case Failed =>
            errno := Other;
            return -1, [];
        }
      }
      bytes := unread[..cnt];
      unread := unread[cnt..];
    }

    /** write(2) of a prefix of bytes, an empty one included; then errno is not touched. */
    method Write(bytes: seq<Byte>) returns (cnt: int)
      requires bytes != []
      modifies this`written, this`script, this`errno
      ensures -1 <= cnt <= |bytes|
      ensures old(script) == [] ==> cnt == |bytes|
      ensures cnt == -1 <==> old(script) != [] && !old(script)[0].Chunk?
      ensures old(script) != [] && old(script)[0].Chunk? ==> cnt == Min(old(script)[0].n, |bytes|)
      ensures errno == if cnt != -1 then old(errno) else if old(script)[0].Interrupted? then EINTR else Other
      ensures written == old(written) + if cnt > 0 then bytes[..cnt] else []
      ensures script == if old(script) == [] then [] else old(script)[1..]
    {
      if script == [] {
        cnt := |bytes|;
      } else {
        var e := script[0];
        script := script[1..];
        match e {
          case Chunk(k) =>
            cnt := if k <= |bytes| then k else |bytes|;
          case Interrupted =>
            errno := EINTR;
            return -1;
          case Failed =>
            errno := Other;
            return -1;
        }
      }
      written := written + bytes[..cnt];
    }
  }

  /** rio_readn: n bytes, fewer only at the end of the stream, whatever the script; -1 on an
      error that is not an interruption. What is stored and what is left is the stream. */
  method ReadN(fd: Descriptor, buf: array<Byte>, n: nat) returns (r: int)
    requires n <= buf.Length
    modifies fd, buf
    ensures r == -1 || r == Min(n, |old(fd.unread)|)
    ensures r == -1 <==> FateOf(old(fd.script), |old(fd.unread)|, n).Before(n)
    ensures r >= 0 ==> buf[..r] + fd.unread == old(fd.unread)
    ensures
      var fate := FateOf(old(fd.script), |old(fd.unread)|, n);
      r == -1 ==> fate.n <= n && buf[..fate.n] + fd.unread == old(fd.unread)
    ensures buf[n..] == old(buf[n..])
    ensures fd.written == old(fd.written)
  {
    var nleft := n;
    var bufp := 0;
    ghost var rest, fate := buf[n..], FateOf(fd.script, |fd.unread|, n);
    while nleft > 0
      invariant bufp + nleft == n && 0 <= nleft
      invariant buf[..bufp] + fd.unread == old(fd.unread)
      invariant buf[n..] == rest
      invariant if nleft == 0 then !fate.Before(n) else fate == FateOf(fd.script, |fd.unread|, n).Later(bufp)
      invariant fd.written == old(fd.written)
      decreases |fd.script|, nleft
    {
      ghost var was := buf[..];
      var nread, bytes := fd.Read(nleft);
      if nread < 0 {
        assert buf[..bufp] + fd.unread == old(fd.unread);
        if fd.errno == EINTR {
          nread := 0;
        } else {
          return -1;
        }
      } else if nread == 0 {
        break;
      }
      Store(buf, bufp, bytes);
      Spliced(was, buf[..], bufp, bytes, n);
      Regroup(was[..bufp], bytes, fd.unread);
      nleft := nleft - nread;
      bufp := bufp + nread;
    }
    r := n - nleft;
    assert buf[..bufp] + fd.unread == old(fd.unread);
  }

  lemma Spliced(was: seq<Byte>, now: seq<Byte>, at: nat, bytes: seq<Byte>, n: nat)
    requires at + |bytes| <= n <= |was| && now == was[..at] + bytes + was[at + |bytes|..]
    ensures |now| == |was| && now[..at + |bytes|] == was[..at] + bytes && now[n..] == was[n..]
  {
  }

  /** The bytes a call puts at position at of the user's buffer. */
  method Store(buf: array<Byte>, at: nat, bytes: seq<Byte>)
    requires at + |bytes| <= buf.Length
    modifies buf
    ensures buf[..] == old(buf[..at]) + bytes + old(buf[at + |bytes|..])
  {
    ghost var was := buf[..];
    for i := 0 to |bytes|
      invariant forall j :: 0 <= j < buf.Length ==> buf[j] == if at <= j < at + i then bytes[j - at] else was[j]
    {
      buf[at + i] := bytes[i];
    }
    assert buf[..] == was[..at] + bytes + was[at + |bytes|..];
  }

  /** The bytes the calls of a script move when there is no end to what they can move. */
  function Moved(script: seq<Event>): nat {
    if script == [] then 0
    else
      var last := script[|script| - 1];
      Moved(script[..|script| - 1]) + if last.Chunk? then last.n else 0
  }

  lemma {:induction false} MovedGrows(script: seq<Event>, i: nat, j: nat)
    requires i <= j <= |script|
    ensures Moved(script[..i]) <= Moved(script[..j])
  {
    if i < j {
      MovedGrows(script, i, j - 1);
      assert script[..j][..j - 1] == script[..j - 1];
    }
  }

  /** Call i makes rio_writen give up: an error that is not an interruption, or a write that moves
      nothing while errno does not say EINTR, from before or from an earlier interruption. */
  predicate Stops(script: seq<Event>, errno: Errno, i: nat)
    requires i < |script|
  {
    script[i].Failed? || (script[i] == Chunk(0) && errno != EINTR && Interrupted !in script[..i])
  }

  /** Call i is made, because the calls before it move less than n bytes, and stops rio_writen. */
  predicate StopsShort(script: seq<Event>, errno: Errno, n: nat, i: int) {
    0 <= i < |script| && Moved(script[..i]) < n && Stops(script, errno, i)
  }

  /** A write that moves nothing stops rio_writen, unless a call was interrupted before. */
  lemma ZeroRetried()
    ensures StopsShort([Chunk(0)], NoError, 1, 0)
    ensures forall i :: !StopsShort([Interrupted, Chunk(0)], NoError, 1, i)
  {
    assert [Interrupted, Chunk(0)][..1] == [Interrupted];
  }

  /** The write is stopped, in terms of the script: an error before n bytes are moved, or a write
      that moves nothing before n bytes are moved and before any interruption, errno not saying EINTR
      from before. */
  lemma StoppedIff(script: seq<Event>, errno: Errno, n: nat)
    ensures
      (exists i :: StopsShort(script, errno, n, i)) <==>
        || (exists i {:trigger script[i]} :: 0 <= i < |script| && script[i] == Failed && Moved(script[..i]) < n)
        || (errno != EINTR &&
            exists i {:trigger script[i]} ::
              0 <= i < |script| && script[i] == Chunk(0) && Moved(script[..i]) < n && Interrupted !in script[..i])
  {
    if i :| StopsShort(script, errno, n, i) {
      assert script[i] == Failed || script[i] == Chunk(0);
    }
    if i {:trigger script[i]} :| 0 <= i < |script| && script[i] == Failed && Moved(script[..i]) < n {
      assert StopsShort(script, errno, n, i);
    }
    if i {:trigger script[i]} :|
      0 <= i < |script| && script[i] == Chunk(0) && Moved(script[..i]) < n && Interrupted !in script[..i]
      && errno != EINTR {
      assert StopsShort(script, errno, n, i);
    }
  }

  /** Every call is interrupted or moves something. */
  ghost predicate Willing(script: seq<Event>) {
    forall e <- script :: e.Interrupted? || (e.Chunk? && e.n > 0)
  }

  /** Interruptions and short writes alone never stop it. */
  lemma WillingGoes(script: seq<Event>, errno: Errno, n: nat)
    requires Willing(script)
    ensures forall i :: !StopsShort(script, errno, n, i)
  {
    forall i: nat | i < |script|
      ensures !StopsShort(script, errno, n, i)
    {
      assert script[i] in script;
    }
  }

  /** Some call stopped rio_writen, and out is what the calls before it moved of data. */
  ghost predicate StoppedAfter(script: seq<Event>, errno: Errno, data: seq<Byte>, out: seq<Byte>) {
    exists i :: StopsShort(script, errno, |data|, i) && out == data[..Moved(script[..i])]
  }

  lemma Stopped(script: seq<Event>, errno: Errno, data: seq<Byte>, out: seq<Byte>)
    requires StoppedAfter(script, errno, data, out)
    ensures !Willing(script) && exists i :: StopsShort(script, errno, |data|, i)
  {
    if Willing(script) {
      WillingGoes(script, errno, |data|);
    }
  }

  /** After c calls of the script none has stopped rio_writen, bufp bytes are moved, and errno says
      EINTR exactly if it did before or a call was interrupted. */
  ghost predicate Going(script: seq<Event>, before: Errno, n: nat, c: nat, bufp: nat, errno: Errno) {
    && c <= |script| && bufp <= n
    && errno == (if Interrupted in script[..c] then EINTR else before)
    && (bufp < n ==> bufp == Moved(script[..c]))
    && (bufp == n ==> c == |script| || Moved(script[..c]) >= n)
    && forall i :: 0 <= i < c ==> !StopsShort(script, before, n, i)
  }

  lemma GoingOn(script: seq<Event>, before: Errno, n: nat, c: nat, bufp: nat, errno: Errno, cnt: nat)
    requires Going(script, before, n, c, bufp, errno) && bufp < n && c < |script|
    requires !StopsShort(script, before, n, c)
    requires cnt == if script[c].Chunk? then Min(script[c].n, n - bufp) else 0
    ensures !script[c].Failed?
    ensures Going(script, before, n, c + 1, bufp + cnt, if script[c].Interrupted? then EINTR else errno)
  {
    assert script[..c + 1] == script[..c] + [script[c]];
    assert script[..c + 1][..c] == script[..c];
  }

  /** Once everything is moved no later call could stop rio_writen. */
  lemma Gone(script: seq<Event>, before: Errno, n: nat, c: nat, errno: Errno)
    requires Going(script, before, n, c, n, errno)
    ensures forall i :: !StopsShort(script, before, n, i)
  {
    forall i: int | c <= i < |script|
      ensures !StopsShort(script, before, n, i)
    {
      MovedGrows(script, c, i);
    }
  }

  /** In rio_writen's loop, after c calls: the first bufp bytes of data are emitted behind start. */
  ghost predicate Writing(script: seq<Event>, before: Errno, data: seq<Byte>, start: seq<Byte>, c: nat, bufp: nat,
                          rest: seq<Event>, errno: Errno, written: seq<Byte>) {
    bufp <= |data| &&
    forall u {:trigger Unfold(u)} :: Unfold(u) ==>
      && Going(script, before, |data|, c, bufp, errno)
      && rest == script[c..] && written == start + data[..bufp]
  }

  lemma WritingStart(script: seq<Event>, before: Errno, data: seq<Byte>, start: seq<Byte>)
    ensures Writing(script, before, data, start, 0, 0, script, before, start)
  {
    assert script[0..] == script && data[..0] == [] && start + [] == start;
  }

  /** A call that moved cnt bytes, or was taken for an interruption. */
  lemma WritingNext(script: seq<Event>, before: Errno, data: seq<Byte>, start: seq<Byte>, c: nat, bufp: nat,
                    rest: seq<Event>, errno: Errno, written: seq<Byte>, after: Errno, cnt: nat)
    returns (c': nat)
    requires Writing(script, before, data, start, c, bufp, rest, errno, written) && bufp + cnt <= |data|
    requires bufp < |data| && (rest == [] ==> cnt == |data| - bufp)
    requires rest != [] ==> cnt == if rest[0].Chunk? then Min(rest[0].n, |data| - bufp) else 0
    requires after == if rest == [] || rest[0].Chunk? then errno else if rest[0].Interrupted? then EINTR else Other
    requires cnt > 0 || after == EINTR
    ensures
      Writing(script, before, data, start, c', bufp + cnt, if rest == [] then [] else rest[1..], after,
              written + data[bufp..bufp + cnt])
  {
    assert Unfold(0);
    c' := c;
    if rest != [] {
      assert rest[0] == script[c] && rest[1..] == script[c + 1..];
      GoingOn(script, before, |data|, c, bufp, errno, cnt);
      c' := c + 1;
    }
    assert data[..bufp + cnt] == data[..bufp] + data[bufp..bufp + cnt];
    Regroup(start, data[..bufp], data[bufp..bufp + cnt]);
  }

  /** A call that stops the write. */
  lemma WritingStops(script: seq<Event>, before: Errno, data: seq<Byte>, start: seq<Byte>, c: nat, bufp: nat,
                     rest: seq<Event>, errno: Errno, written: seq<Byte>)
    requires Writing(script, before, data, start, c, bufp, rest, errno, written) && bufp < |data| && rest != []
    requires rest[0].Failed? || (rest[0] == Chunk(0) && errno != EINTR)
    ensures start <= written && StoppedAfter(script, before, data, written[|start|..])
  {
    assert Unfold(0);
    assert rest[0] == script[c];
    assert StopsShort(script, before, |data|, c);
  }

  /** Everything is emitted. */
  lemma WritingEnds(script: seq<Event>, before: Errno, data: seq<Byte>, start: seq<Byte>, c: nat, rest: seq<Event>,
                    errno: Errno, written: seq<Byte>)
    requires Writing(script, before, data, start, c, |data|, rest, errno, written)
    ensures written == start + data && forall i :: !StopsShort(script, before, |data|, i)
  {
    assert Unfold(0);
    Gone(script, before, |data|, c, errno);
    assert data[..|data|] == data;
  }

  /** rio_writen: exactly the n bytes are emitted, in order, however short the writes; -1 exactly when
      some call that is made stops it, what was moved before that call having been emitted. */
  method WriteN(fd: Descriptor, buf: array<Byte>, n: nat) returns (r: int)
    requires n <= buf.Length
    modifies fd
    ensures r == n || r == -1
    ensures r == -1 <==> exists i :: StopsShort(old(fd.script), old(fd.errno), n, i)
    ensures Willing(old(fd.script)) ==> r == n
    ensures r == n ==> fd.written == old(fd.written) + buf[..n]
    ensures r == -1 ==>
      && old(fd.written) <= fd.written
      && StoppedAfter(old(fd.script), old(fd.errno), buf[..n], fd.written[|old(fd.written)|..])
    ensures fd.unread == old(fd.unread)
  {
    var nleft := n;
    var bufp := 0;
    ghost var data, script, before, c: nat := buf[..n], fd.script, fd.errno, 0;
    WritingStart(script, before, data, fd.written);
    while nleft > 0
      invariant bufp + nleft == n && 0 <= nleft && buf[..n] == data && fd.unread == old(fd.unread)
      invariant Writing(script, before, data, old(fd.written), c, bufp, fd.script, fd.errno, fd.written)
      decreases |fd.script|, nleft
    {
      ghost var rest, errno, written := fd.script, fd.errno, fd.written;
      assert buf[bufp..n] == data[bufp..];
      var nwritten := fd.Write(buf[bufp..n]);
      if nwritten <= 0 {
        if fd.errno == EINTR {
          nwritten := 0;
        } else {
          assert fd.written == written;
          WritingStops(script, before, data, old(fd.written), c, bufp, rest, errno, written);
          assert buf[..n] == data;
          Stopped(script, before, buf[..n], fd.written[|old(fd.written)|..]);
          return -1;
        }
      }
      c := WritingNext(script, before, data, old(fd.written), c, bufp, rest, errno, written, fd.errno, nwritten);
      nleft := nleft - nwritten;
      bufp := bufp + nwritten;
    }
    WritingEnds(script, before, data, old(fd.written), c, fd.script, fd.errno, fd.written);
    r := n;
  }

  /** The next line of s, its newline included, cut off after limit bytes. */
  function LineOf(s: seq<Byte>, limit: nat): seq<Byte>
    decreases limit
  {
    if limit == 0 || s == [] then []
    else if s[0] == NEWLINE then [NEWLINE]
    else [s[0]] + LineOf(s[1..], limit - 1)
  }

  ghost predicate EndsLine(line: seq<Byte>) {
    line != [] && line[|line| - 1] == NEWLINE
  }

  /** The line is the longest prefix that stops at the first newline, at the limit or at the end
      of the stream. */
  lemma {:induction false} LineOfIs(s: seq<Byte>, limit: nat)
    ensures
      var line := LineOf(s, limit);
      && line <= s && |line| <= limit
      && (forall i :: 0 <= i < |line| - 1 ==> line[i] != NEWLINE)
      && (EndsLine(line) || |line| == limit || line == s)
    decreases limit
  {
    if limit > 0 && s != [] && s[0] != NEWLINE {
      LineOfIs(s[1..], limit - 1);
    }
  }

  /** A line of two bytes, the second of them '\n'. */
  lemma NewlineEnds()
    ensures LineOf([65, 10, 66], 9) == [65, 10]
  {
    assert LineOf([10, 66], 8) == [10];
  }

  /** And it is the only such prefix. */
  lemma {:induction false} LineOfUnique(s: seq<Byte>, limit: nat, line: seq<Byte>)
    requires line <= s && |line| <= limit
    requires forall i :: 0 <= i < |line| - 1 ==> line[i] != NEWLINE
    requires EndsLine(line) || |line| == limit || line == s
    ensures line == LineOf(s, limit)
    decreases limit
  {
    if limit > 0 && s != [] {
      if s[0] == NEWLINE {
        assert line[0] == NEWLINE;
        assert |line| == 1;
      } else {
        assert line[0] == s[0];
        assert EndsLine(line) ==> EndsLine(line[1..]);
        assert line == s ==> line[1..] == s[1..];
        LineOfUnique(s[1..], limit - 1, line[1..]);
        assert line == [line[0]] + line[1..];
      }
    }
  }

  /** The most bytes of a line that rio_readlineb stores. */
  function Limit(maxlen: nat): nat {
    if maxlen == 0 then 0 else maxlen - 1
  }

  /** How far rio_readlineb has to read: to the end of the line, or one more to find the end of the
      stream. */
  ghost function LineNeed(s: seq<Byte>, limit: nat): nat {
    var line := LineOf(s, limit);
    if EndsLine(line) || |line| == limit then |line| else |line| + 1
  }

  /** Bytes taken without a newline and below the limit are not yet the line. */
  lemma NeedsMore(s: seq<Byte>, limit: nat, taken: seq<Byte>)
    requires taken <= s && |taken| < limit && Plain(taken)
    ensures |taken| < LineNeed(s, limit)
    ensures taken == s ==> LineNeed(s, limit) == |taken| + 1
  {
    LineOfIs(s, limit);
  }

  /** What rio_readlineb returns for the line it stored. */
  function LineCount(line: seq<Byte>, maxlen: nat): int {
    if line == [] && maxlen > 1 then 0
    else if line != [] && line[|line| - 1] == NEWLINE then |line|
    else |line| + 1
  }

  /** The count is the number of bytes stored exactly when a newline ended the line or the stream
      was at its end; otherwise it is one more. */
  lemma CountIsStoredIff(s: seq<Byte>, maxlen: nat)
    ensures
      var line := LineOf(s, Limit(maxlen));
      LineCount(line, maxlen) == |line| + 1 || LineCount(line, maxlen) == |line|
    ensures
      var line := LineOf(s, Limit(maxlen));
      LineCount(line, maxlen) == |line| <==> EndsLine(line) || (s == [] && maxlen > 1)
  {
  }

  /** A byte and the end of the stream: one byte stored, two counted. */
  lemma CountTooHigh()
    ensures |LineOf([65], 9)| == 1 && LineCount(LineOf([65], 9), 10) == 2
  {
    assert LineOf([65], 9) == [65];
  }

  lemma NothingStored(usr: seq<Byte>, at: nat)
    requires at <= |usr|
    ensures usr == usr[..at] + [] + usr[at..]
  {
  }

  /** From index k on the two buffers agree. */
  ghost predicate SameFrom(a: seq<Byte>, b: seq<Byte>, k: int) {
    |a| == |b| && forall i :: k <= i < |a| && 0 <= i ==> a[i] == b[i]
  }

  ghost predicate Plain(b: seq<Byte>) {
    forall i :: 0 <= i < |b| ==> b[i] != NEWLINE
  }

  /** The outlook first, seen before a line was stored, against the outlook now. */
  ghost predicate LineFate(s: seq<Byte>, limit: nat, line: seq<Byte>, first: Fate, now: Fate, script: seq<Event>) {
    && !first.Before(LineNeed(s, limit))
    && first == if LineNeed(s, limit) == |line| then now.Later(|line|) else Ends(script)
  }

  /** In rio_readlineb's loop: of s the bytes now[..at] are stored and rest is left, no newline yet;
      the buffer was was, the outlook first. */
  ghost predicate Taking(s: seq<Byte>, was: seq<Byte>, now: seq<Byte>, at: nat, rest: seq<Byte>,
                         first: Fate, ahead: Fate) {
    at <= |now| &&
    forall i {:trigger Unfold(i)} :: Unfold(i) ==>
      s == now[..at] + rest && SameFrom(now, was, at) && Plain(now[..at]) && first == ahead.Later(at)
  }

  /** At its end: the line is stored, and n counts it. */
  ghost predicate Taken(s: seq<Byte>, maxlen: nat, was: seq<Byte>, now: seq<Byte>, at: nat, rest: seq<Byte>,
                        first: Fate, ahead: Fate, script: seq<Event>, n: int) {
    at <= |now| &&
    forall i {:trigger Unfold(i)} :: Unfold(i) ==>
      && at <= Limit(maxlen) && s == now[..at] + rest && SameFrom(now, was, at)
      && now[..at] == LineOf(s, Limit(maxlen)) && n == LineCount(now[..at], maxlen)
      && LineFate(s, Limit(maxlen), now[..at], first, ahead, script)
  }

  /** The newline has just been stored. */
  lemma LineEnded(s: seq<Byte>, maxlen: nat, was: seq<Byte>, now: seq<Byte>, at: nat, rest: seq<Byte>,
                  first: Fate, ahead: Fate, script: seq<Event>)
    requires at <= |now| && at <= Limit(maxlen) && s == now[..at] + rest && SameFrom(now, was, at)
    requires EndsLine(now[..at]) && Plain(now[..at - 1]) && first == ahead.Later(at)
    ensures Taken(s, maxlen, was, now, at, rest, first, ahead, script, at)
  {
    var line := now[..at];
    assert forall i :: 0 <= i < |line| - 1 ==> line[i] == now[..at - 1][i];
    LineOfUnique(s, Limit(maxlen), line);
  }

  /** The limit is reached. */
  lemma LineFull(s: seq<Byte>, maxlen: nat, was: seq<Byte>, now: seq<Byte>, at: nat, rest: seq<Byte>,
                 first: Fate, ahead: Fate, script: seq<Event>)
    requires Taking(s, was, now, at, rest, first, ahead) && at == Limit(maxlen)
    ensures Taken(s, maxlen, was, now, at, rest, first, ahead, script, at + 1)
  {
    assert Unfold(0);
    LineOfUnique(s, at, now[..at]);
  }

  /** The end of the stream is found. */
  lemma LineCut(s: seq<Byte>, maxlen: nat, was: seq<Byte>, now: seq<Byte>, at: nat, first: Fate, ahead: Fate,
                script: seq<Event>)
    requires Taking(s, was, now, at, [], first, Ends(script)) && at < Limit(maxlen)
    ensures Taken(s, maxlen, was, now, at, [], first, ahead, script, if at == 0 then 0 else at + 1)
  {
    assert Unfold(0);
    assert now[..at] == s;
    LineOfUnique(s, Limit(maxlen), now[..at]);
  }

  /** One byte more is stored. */
  lemma TakingNext(s: seq<Byte>, was: seq<Byte>, now: seq<Byte>, at: nat, c: Byte, rest: seq<Byte>, first: Fate,
                   ahead: Fate)
    requires at < |now| && Taking(s, was, now, at, [c] + rest, first, ahead.Later(1))
    ensures
      var next := now[at := c];
      if c == NEWLINE
      then s == next[..at + 1] + rest && SameFrom(next, was, at + 1) && first == ahead.Later(at + 1)
        && EndsLine(next[..at + 1]) && Plain(next[..at])
      else Taking(s, was, next, at + 1, rest, first, ahead)
  {
    assert s == now[..at] + ([c] + rest) && SameFrom(now, was, at) && Plain(now[..at])
           && first == ahead.Later(1).Later(at) by {
      assert Unfold(0);
    }
    var next := now[at := c];
    assert next[..at] == now[..at] && next[..at + 1] == next[..at] + [c];
    Regroup(now[..at], [c], rest);
  }

  /** The lines successive calls read. */
  function Lines(s: seq<Byte>, limit: nat): seq<seq<Byte>>
    requires limit > 0
    decreases |s|
  {
    if s == [] then []
    else
      LineOfIs(s, limit);
      [LineOf(s, limit)] + Lines(s[|LineOf(s, limit)|..], limit)
  }

  function Concat(ls: seq<seq<Byte>>): seq<Byte> {
    if ls == [] then [] else ls[0] + Concat(ls[1..])
  }

  /** Successive lines are the stream. */
  lemma {:induction false} LinesConcat(s: seq<Byte>, limit: nat)
    requires limit > 0
    ensures Concat(Lines(s, limit)) == s
    decreases |s|
  {
    if s != [] {
      LineOfIs(s, limit);
      var line := LineOf(s, limit);
      var rest := s[|line|..];
      LinesConcat(rest, limit);
      assert Lines(s, limit) == [line] + Lines(rest, limit);
      assert ([line] + Lines(rest, limit))[1..] == Lines(rest, limit);
      assert s == line + rest;
    }
  }

  /** What successive calls return, added up. */
  function Counts(ls: seq<seq<Byte>>, maxlen: nat): int {
    if ls == [] then 0 else Counts(ls[..|ls| - 1], maxlen) + LineCount(ls[|ls| - 1], maxlen)
  }

  /** The total is the length of the stream exactly when every line ends with a newline. */
  lemma {:induction false} CountsIff(ls: seq<seq<Byte>>, maxlen: nat)
    requires maxlen > 1 && forall i :: 0 <= i < |ls| ==> ls[i] != []
    ensures Counts(ls, maxlen) >= |Concat(ls)|
    ensures Counts(ls, maxlen) == |Concat(ls)| <==> forall i :: 0 <= i < |ls| ==> EndsLine(ls[i])
  {
    if ls != [] {
      var n := |ls| - 1;
      CountsIff(ls[..n], maxlen);
      ConcatLast(ls);
      assert forall i :: 0 <= i < n ==> ls[..n][i] == ls[i];
    }
  }

  /** A stream of one byte is counted as two. */
  lemma TotalTooHigh()
    ensures Counts([[65]], 10) == 2 && Concat([[65]]) == [65]
  {
    assert [[65]][..0] == [];
    assert Concat([[65]][1..]) == [];
  }

  lemma {:induction false} ConcatLast(ls: seq<seq<Byte>>)
    requires ls != []
    ensures Concat(ls) == Concat(ls[..|ls| - 1]) + ls[|ls| - 1]
  {
    if |ls| > 1 {
      ConcatLast(ls[1..]);
      assert ls[1..][..|ls| - 2] == ls[..|ls| - 1][1..];
      Regroup(ls[0], Concat(ls[1..][..|ls| - 2]), ls[|ls| - 1]);
    }
  }

  /** After reading lines from s the stream holds rest; total is what the calls returned. */
  ghost predicate Reading(s: seq<Byte>, lines: seq<seq<Byte>>, rest: seq<Byte>, total: int, maxlen: nat) {
    forall i {:trigger Unfold(i)} :: Unfold(i) ==>
      maxlen > 1 && Lines(s, maxlen - 1) == lines + Lines(rest, maxlen - 1) && total == Counts(lines, maxlen)
  }

  /** One more line read. */
  lemma ReadingNext(s: seq<Byte>, lines: seq<seq<Byte>>, was: seq<Byte>, rest: seq<Byte>, total: int,
                    maxlen: nat, n: int)
    returns (line: seq<Byte>)
    requires maxlen > 1 && Reading(s, lines, was, total, maxlen) && n > 0
    requires n == LineCount(LineOf(was, maxlen - 1), maxlen) && was == LineOf(was, maxlen - 1) + rest
    ensures line == LineOf(was, maxlen - 1)
    ensures |rest| < |was| && Reading(s, lines + [line], rest, total + n, maxlen)
  {
    assert Unfold(0);
    line := LineOf(was, maxlen - 1);
    assert was[|line|..] == rest;
    assert (lines + [line])[..|lines|] == lines;
    assert lines + ([line] + Lines(rest, maxlen - 1)) == (lines + [line]) + Lines(rest, maxlen - 1);
  }

  /** Nothing left to read. */
  lemma ReadingEnds(s: seq<Byte>, lines: seq<seq<Byte>>, was: seq<Byte>, rest: seq<Byte>, total: int, maxlen: nat)
    requires maxlen > 1 && Reading(s, lines, was, total, maxlen)
    requires LineCount(LineOf(was, maxlen - 1), maxlen) == 0 && was == LineOf(was, maxlen - 1) + rest
    ensures lines == Lines(s, maxlen - 1) && Concat(lines) == s && rest == [] && total == Counts(lines, maxlen)
  {
    assert Unfold(0);
    LinesConcat(s, maxlen - 1);
  }

  /** The last line of s is ended by neither a newline nor the limit, but by the end of s. */
  ghost predicate Unended(s: seq<Byte>, limit: nat) {
    limit > 0 && Lines(s, limit) != [] &&
    var last := Lines(s, limit)[|Lines(s, limit)| - 1];
    !EndsLine(last) && |last| < limit
  }

  /** The last line read tells, once everything is read. */
  lemma ReadingUnended(s: seq<Byte>, lines: seq<seq<Byte>>, total: int, maxlen: nat)
    requires maxlen > 1 && Reading(s, lines, [], total, maxlen) && lines != []
    ensures Unended(s, maxlen - 1) <==> !EndsLine(lines[|lines| - 1]) && |lines[|lines| - 1]| < maxlen - 1
  {
    assert Unfold(0);
    assert Lines(s, maxlen - 1) == lines;
  }

  /** Reading all lines of s fails: before the end is found, or when it is looked for once more after
      an unended last line. */
  ghost predicate FailsLines(s: seq<Byte>, limit: nat, ahead: Fate) {
    || ahead.Before(|s| + 1)
    || (Unended(s, limit) && ahead.Ends? && Outlook(ahead.rest, 0, BUFSIZE).Before(1))
  }

  /** Reading s began with the outlook first and has come to the outlook now, with left bytes of s to
      go; ended says that an unended last line has been read. */
  ghost predicate Faring(s: seq<Byte>, limit: nat, first: Fate, now: Fate, left: nat, ended: bool) {
    forall i {:trigger Unfold(i)} :: Unfold(i) ==>
      if ended then left == 0 && Unended(s, limit) && first.Ends? && now == Outlook(first.rest, 0, BUFSIZE)
      else left <= |s| && first == now.Later(|s| - left) && (left == 0 ==> !Unended(s, limit))
  }

  lemma ReadingBegins(s: seq<Byte>, maxlen: nat, first: Fate)
    requires maxlen > 1
    ensures Reading(s, [], s, 0, maxlen) && Faring(s, maxlen - 1, first, first, |s|, false)
  {
  }

  /** One more line read. */
  lemma FaringNext(s: seq<Byte>, lines: seq<seq<Byte>>, was: seq<Byte>, rest: seq<Byte>, total: int, maxlen: nat,
                   first: Fate, before: Fate, now: Fate, ended: bool, script: seq<Event>)
    requires maxlen > 1 && Reading(s, lines, rest, total, maxlen) && lines != []
    requires lines[|lines| - 1] == LineOf(was, maxlen - 1) && was == LineOf(was, maxlen - 1) + rest && was != []
    requires Faring(s, maxlen - 1, first, before, |was|, ended)
    requires
      var k := |LineOf(was, maxlen - 1)|;
      before == if LineNeed(was, maxlen - 1) == k then now.Later(k) else Ends(script)
    requires rest == [] ==> now == Outlook(script, 0, BUFSIZE)
    ensures
      Faring(s, maxlen - 1, first, now, |rest|, LineNeed(was, maxlen - 1) > |LineOf(was, maxlen - 1)|)
  {
    LineOfIs(was, maxlen - 1);
    assert !ended && |was| <= |s| && first == before.Later(|s| - |was|) by {
      assert Unfold(0);
    }
    if rest == [] {
      ReadingUnended(s, lines, total, maxlen);
    } else {
      assert was != LineOf(was, maxlen - 1);
    }
  }

  /** The next call fails, or finds the end. */
  lemma FaringEnds(s: seq<Byte>, limit: nat, first: Fate, now: Fate, was: seq<Byte>, ended: bool)
    requires limit > 0 && Faring(s, limit, first, now, |was|, ended)
    ensures now.Before(LineNeed(was, limit)) ==> FailsLines(s, limit, first)
    ensures was == [] && !now.Before(LineNeed(was, limit)) ==> !FailsLines(s, limit, first)
  {
    assert Unfold(0);
    LineOfIs(was, limit);
  }

  /** rio_t: a descriptor with an internal buffer, of which cnt bytes from ptr on are unread. */
  class Stream {
    const fd: Descriptor
    const buf: array<Byte>
    var cnt: int
    var ptr: int

    ghost predicate Valid()
      reads this
    {
      && buf.Length == BUFSIZE
      && -1 <= cnt
      && 0 <= ptr
      && ptr + cnt <= BUFSIZE
      && ptr <= BUFSIZE
    }

    /** What the stream still holds: the internal buffer's unread bytes, then the descriptor's. */
    ghost function Pending(): seq<Byte>
      requires Valid()
      reads this, fd, buf
    {
      Buffered() + fd.unread
    }

    ghost function Buffered(): seq<Byte>
      requires Valid()
      reads this, buf
    {
      if cnt > 0 then buf[ptr..ptr + cnt] else []
    }

    /** How reading on will fare. */
    ghost function Ahead(): Fate
      requires Valid()
      reads this, fd, buf
    {
      Outlook(fd.script, |fd.unread|, BUFSIZE).Later(|Buffered()|)
    }

    /** rio_readinitb */
    constructor (fd: Descriptor)
      ensures Valid() && this.fd == fd && Pending() == fd.unread && fresh(buf) && buf.Length == 8192
      ensures Ahead() == FateOf(fd.script, |fd.unread|, BUFSIZE)
    {
      this.fd := fd;
      buf := new Byte[BUFSIZE];
      cnt := 0;
      ptr := 0;
      new;
      OutlookIs(fd.script, |fd.unread|, BUFSIZE);
    }

    /** rio_read: n bytes of what is pending, or all the internal buffer holds, refilled first if
        it holds nothing; 0 only at the end; -1 on an error that is not an interruption, nothing
        moved. */
    method Read(usr: array<Byte>, at: nat, n: nat) returns (r: int, ghost bytes: seq<Byte>)
      requires Valid() && n > 0 && at + n <= usr.Length && usr != buf
      modifies this`cnt, this`ptr, buf, fd`unread, fd`script, fd`errno, usr
      ensures Valid() && -1 <= r <= n
      ensures |bytes| == (if r == -1 then 0 else r) && old(Pending()) == bytes + Pending()
      ensures usr[..] == old(usr[..at]) + bytes + old(usr[at + |bytes|..])
      ensures r == -1 <==> old(Ahead()) == After(0)
      ensures r == -1 ==> fd.errno != EINTR
      ensures r == 0 ==> Pending() == [] && old(Ahead()) == Ends(fd.script)
      ensures r > 0 ==> r == Min(n, r + cnt) && old(Ahead()) == Ahead().Later(r)
      ensures old(cnt) > 0 ==> r == Min(n, old(cnt)) && fd.unread == old(fd.unread)
      ensures |fd.script| <= |old(fd.script)|
    {
      r := Refill();
      if r <= 0 {
        bytes := [];
        NothingStored(usr[..], at);
        return;
      }
      r := n;
      if cnt < n {
        r := cnt;
      }
      bytes := Deliver(usr, at, r);
    }

    /** The copy at the end of rio_read. */
    method Deliver(usr: array<Byte>, at: nat, r: nat) returns (ghost bytes: seq<Byte>)
      requires Valid() && 0 < r <= cnt && at + r <= usr.Length && usr != buf
      modifies this`cnt, this`ptr, usr
      ensures Valid() && cnt == old(cnt) - r && old(Ahead()) == Ahead().Later(r)
      ensures |bytes| == r && old(Pending()) == bytes + Pending()
      ensures usr[..] == old(usr[..at]) + bytes + old(usr[at + |bytes|..])
    {
      ghost var next := buf[ptr..ptr + r];
      Store(usr, at, buf[ptr..ptr + r]);
      assert buf[ptr..ptr + r] == next;
      bytes := Consume(r);
    }

    /** The next r bytes of the internal buffer are read. */
    method Consume(r: nat) returns (ghost bytes: seq<Byte>)
      requires Valid() && 0 < r <= cnt
      modifies this`cnt, this`ptr
      ensures Valid() && cnt == old(cnt) - r && old(Ahead()) == Ahead().Later(r)
      ensures bytes == buf[old(ptr)..old(ptr) + r] && old(Pending()) == bytes + Pending()
    {
      bytes := buf[ptr..ptr + r];
      ghost var rest := buf[ptr + r..ptr + cnt];
      assert buf[ptr..ptr + cnt] == bytes + rest;
      Regroup(bytes, rest, fd.unread);
      ptr := ptr + r;
      cnt := cnt - r;
      assert Buffered() == rest;
    }

    /** The refill loop of rio_read: 1 once the internal buffer holds something. */
    method Refill() returns (r: int)
      requires Valid()
      modifies this`cnt, this`ptr, buf, fd`unread, fd`script, fd`errno
      ensures Valid() && (r == 1 || r == 0 || r == -1)
      ensures Pending() == old(Pending())
      ensures r == 1 <==> cnt > 0
      ensures old(cnt) > 0 ==> cnt == old(cnt) && fd.unread == old(fd.unread)
      ensures r == 1 ==> Ahead() == old(Ahead())
      ensures r == 0 ==> Pending() == [] && old(Ahead()) == Ends(fd.script)
      ensures r == -1 ==> fd.errno != EINTR && old(Ahead()) == After(0)
      ensures |fd.script| <= |old(fd.script)|
    {
      while cnt <= 0
        invariant Valid() && Pending() == old(Pending()) && Ahead() == old(Ahead())
        invariant old(cnt) > 0 ==> cnt == old(cnt) && fd.unread == old(fd.unread)
        invariant |fd.script| <= |old(fd.script)|
        decreases cnt <= 0, |fd.script|
      {
        RefillOnce();
        if cnt < 0 {
          if fd.errno != EINTR {
            return -1;
          }
        } else if cnt == 0 {
          return 0;
        }
      }
      return 1;
    }

    /** The read of one round of that loop. */
    method RefillOnce()
      requires Valid() && cnt <= 0
      modifies this`cnt, this`ptr, buf, fd`unread, fd`script, fd`errno
      ensures Valid() && Pending() == old(Pending())
      ensures cnt > 0 || (cnt == -1 && fd.errno == EINTR) ==> Ahead() == old(Ahead())
      ensures cnt == -1 ==> |fd.script| < |old(fd.script)| && (fd.errno != EINTR ==> old(Ahead()) == After(0))
      ensures cnt == 0 ==> Pending() == [] && old(Ahead()) == Ends(fd.script)
      ensures |fd.script| <= |old(fd.script)|
    {
      OutlookNext(fd.script, |fd.unread|, BUFSIZE);
      var bytes;
      cnt, bytes := fd.Read(BUFSIZE);
      OutlookEnds(|fd.unread|, BUFSIZE);
      if cnt > 0 {
        Store(buf, 0, bytes);
        ptr := 0;
      }
    }

    /** rio_readnb: exactly n bytes, fewer only at the end of the stream, whatever the script. */
    method ReadNB(usr: array<Byte>, n: nat) returns (r: int)
      requires Valid() && n <= usr.Length && usr != buf
      modifies this`cnt, this`ptr, buf, fd`unread, fd`script, fd`errno, usr
      ensures Valid()
      ensures r == -1 || r == Min(n, |old(Pending())|)
      ensures r == -1 <==> old(Ahead()).Before(n)
      ensures r >= 0 ==> usr[..r] + Pending() == old(Pending())
      ensures r == -1 ==> usr[..old(Ahead()).n] + Pending() == old(Pending())
      ensures usr[n..] == old(usr[n..])
    {
      var nleft := n;
      var bufp := 0;
      ghost var rest := usr[n..];
      while nleft > 0
        invariant Valid() && bufp + nleft == n && 0 <= nleft
        invariant usr[..bufp] + Pending() == old(Pending())
        invariant usr[n..] == rest
        invariant old(Ahead()) == Ahead().Later(bufp)
        decreases nleft
      {
        ghost var was, pending := usr[..], Pending();
        var nread;
        ghost var bytes;
        nread, bytes := Read(usr, bufp, nleft);
        assert usr[..bufp] == was[..bufp];
        if nread < 0 {
          assert bytes == [] && bytes + Pending() == Pending() == pending;
          if fd.errno == EINTR {
            nread := 0;
          } else {
            return -1;
          }
        } else if nread == 0 {
          break;
        }
        Spliced(was, usr[..], bufp, bytes, n);
        Regroup(was[..bufp], bytes, Pending());
        nleft := nleft - nread;
        bufp := bufp + nread;
      }
      r := n - nleft;
      assert usr[..bufp] + Pending() == old(Pending());
    }

    /** rio_readlineb: the next line of what is pending is stored and terminated, whatever the
        script; at the end of the stream nothing is stored, not even the terminator. */
    method ReadLineB(usr: array<Byte>, maxlen: nat) returns (rc: int)
      requires Valid() && maxlen <= usr.Length && 0 < usr.Length && usr != buf
      modifies this`cnt, this`ptr, buf, fd`unread, fd`script, fd`errno, usr
      ensures Valid()
      ensures rc == -1 <==> old(Ahead()).Before(LineNeed(old(Pending()), Limit(maxlen)))
      ensures rc != -1 ==>
        var line := LineOf(old(Pending()), Limit(maxlen));
        && rc == LineCount(line, maxlen)
        && old(Pending()) == line + Pending()
        && |line| < usr.Length && usr[..|line|] == line
        && (rc > 0 ==> usr[|line|] == 0)
        && old(Ahead()) == (if LineNeed(old(Pending()), Limit(maxlen)) == |line| then Ahead().Later(|line|)
                            else Ends(fd.script))
        && SameFrom(usr[..], old(usr[..]), |line| + if rc > 0 then 1 else 0)
      ensures rc == -1 ==>
        var k := old(Ahead()).n;
        k < usr.Length && usr[..k] + Pending() == old(Pending()) && SameFrom(usr[..], old(usr[..]), k)
    {
      ghost var s := Pending();
      var bufp, n;
      rc, bufp, n := TakeLine(usr, maxlen);
      assert Unfold(0);
      assert usr[..bufp] + Pending() == s;
      if rc == -1 {
        NeedsMore(s, Limit(maxlen), usr[..bufp]);
      }
      if rc <= 0 {
        return;
      }
      usr[bufp] := 0;
      rc := n;
    }

    /** The loop of echo: rio_readlineb until it returns 0. The lines stored are the lines of what
        was pending and concatenate to it, whatever the script; total adds up what the calls
        returned. False on an error that is not an interruption. */
    method ReadLines(usr: array<Byte>, maxlen: nat) returns (ok: bool, total: int, ghost lines: seq<seq<Byte>>)
      requires Valid() && 2 <= maxlen <= usr.Length && usr != buf
      modifies this`cnt, this`ptr, buf, fd`unread, fd`script, fd`errno, usr
      ensures Valid()
      ensures !ok <==> FailsLines(old(Pending()), maxlen - 1, old(Ahead()))
      ensures ok ==>
        && lines == Lines(old(Pending()), maxlen - 1)
        && Concat(lines) == old(Pending()) && Pending() == []
        && total == Counts(lines, maxlen)
    {
      ghost var s := Pending();
      lines, total := [], 0;
      ReadingBegins(s, maxlen, Ahead());
      var n := 1;
      ghost var first, ended := Ahead(), false;
      while n != 0
        invariant Valid()
        invariant if n == 0
                  then lines == Lines(s, maxlen - 1) && Concat(lines) == s && Pending() == []
                    && total == Counts(lines, maxlen)
                  else Reading(s, lines, Pending(), total, maxlen)
        invariant if n == 0 then !FailsLines(s, maxlen - 1, first)
                  else Faring(s, maxlen - 1, first, Ahead(), |Pending()|, ended)
        decreases n != 0, |Pending()|
      {
        ghost var pending := Pending();
        ghost var ahead := Ahead();
        FaringEnds(s, maxlen - 1, first, ahead, pending, ended);
        n := ReadLineB(usr, maxlen);
        if n == -1 {
          return false, total, lines;
        }
        if n == 0 {
          ReadingEnds(s, lines, pending, Pending(), total, maxlen);
        } else {
          ghost var line := ReadingNext(s, lines, pending, Pending(), total, maxlen, n);
          lines, total := lines + [line], total + n;
          FaringNext(s, lines, pending, Pending(), total, maxlen, first, ahead, Ahead(), ended,
                     fd.script);
          ended := LineNeed(pending, maxlen - 1) > |line|;
        }
      }
      return true, total, lines;
    }

    /** The loop of rio_readlineb: -1 on an error, 0 at the end of the stream with nothing read,
        else 1, with bufp bytes stored and n its counter. */
    method TakeLine(usr: array<Byte>, maxlen: nat) returns (rc: int, bufp: nat, n: int)
      requires Valid() && maxlen <= usr.Length && 0 < usr.Length && usr != buf
      modifies this`cnt, this`ptr, buf, fd`unread, fd`script, fd`errno, usr
      ensures Valid() && -1 <= rc <= 1 && bufp <= Limit(maxlen)
      ensures rc == -1 ==>
        && bufp < Limit(maxlen)
        && Taking(old(Pending()), old(usr[..]), usr[..], bufp, Pending(), old(Ahead()), After(0))
      ensures rc != -1 ==>
        Taken(old(Pending()), maxlen, old(usr[..]), usr[..], bufp, Pending(), old(Ahead()), Ahead(), fd.script,
              if rc == 0 then 0 else n)
      ensures rc == 1 ==> n > 0
    {
      ghost var s, first, was := Pending(), Ahead(), usr[..];
      var c := new Byte[1];
      n := 1;
      bufp := 0;
      while n < maxlen
        invariant Valid() && 1 <= n && bufp == n - 1 <= Limit(maxlen)
        invariant Taking(s, was, usr[..], bufp, Pending(), first, Ahead())
      {
        rc := TakeByte(usr, bufp, c, s, was, first);
        if rc == 1 {
          bufp := bufp + 1;
          if c[0] == NEWLINE {
            LineEnded(s, maxlen, was, usr[..], bufp, Pending(), first, Ahead(), fd.script);
            break;
          }
        } else if rc == 0 {
          LineCut(s, maxlen, was, usr[..], bufp, first, Ahead(), fd.script);
          if n == 1 {
            return;
          } else {
            break;
          }
        } else {
          return;
        }
        n := n + 1;
      }
      if n >= maxlen {
        LineFull(s, maxlen, was, usr[..], bufp, Pending(), first, Ahead(), fd.script);
      }
      rc := 1;
    }

    /** One round of it: the next byte, if there is one, is stored at position at. */
    method TakeByte(usr: array<Byte>, at: nat, c: array<Byte>, ghost s: seq<Byte>, ghost was: seq<Byte>,
                    ghost first: Fate)
      returns (rc: int)
      requires Valid() && at < usr.Length && c.Length == 1 && c != buf && usr != buf && c != usr
      requires Taking(s, was, usr[..], at, Pending(), first, Ahead())
      modifies this`cnt, this`ptr, buf, fd`unread, fd`script, fd`errno, usr, c
      ensures Valid() && (rc == 1 || rc == 0 || rc == -1)
      ensures rc == 1 ==>
        if c[0] == NEWLINE
        then s == usr[..at + 1] + Pending() && SameFrom(usr[..], was, at + 1) && first == Ahead().Later(at + 1)
          && EndsLine(usr[..at + 1]) && Plain(usr[..at])
        else Taking(s, was, usr[..], at + 1, Pending(), first, Ahead())
      ensures rc == 0 ==> Pending() == [] && Taking(s, was, usr[..], at, [], first, Ends(fd.script))
      ensures rc == -1 ==> Taking(s, was, usr[..], at, Pending(), first, After(0))
    {
      ghost var now := usr[..];
      rc := NextByte(c);
      assert usr[..] == now;
      if rc == 1 {
        TakingNext(s, was, now, at, c[0], Pending(), first, Ahead());
        usr[at] := c[0];
        assert usr[..] == now[at := c[0]];
      }
    }

    /** rio_read of one byte into c. */
    method NextByte(c: array<Byte>) returns (rc: int)
      requires Valid() && c.Length == 1 && c != buf
      modifies this`cnt, this`ptr, buf, fd`unread, fd`script, fd`errno, c
      ensures Valid() && (rc == 1 || rc == 0 || rc == -1)
      ensures rc == 1 ==> old(Pending()) == [c[0]] + Pending() && old(Ahead()) == Ahead().Later(1)
      ensures rc == 0 ==> old(Pending()) == [] && Pending() == [] && old(Ahead()) == Ends(fd.script)
      ensures rc == -1 <==> old(Ahead()) == After(0)
      ensures rc == -1 ==> old(Pending()) == Pending()
    {
      ghost var pending := Pending();
      ghost var bytes;
      rc, bytes := Read(c, 0, 1);
      assert c[..] == bytes + old(c[|bytes|..]);
      if rc == 1 {
        assert bytes == [c[0]];
      } else {
        assert bytes == [] && bytes + Pending() == Pending();
      }
    }
  }
}
