/**
 * Address dispatch: the strtok-based accessors getInstrumentName and
 * getMessageType of the client, and osc_dispatch of the example firmware.
 *
 * An address such as "/OSCInstrument/play" is split on '/' by strtok, which
 * skips empty pieces, writes a NUL over the '/' that ends each token and keeps
 * a hidden cursor for the next call.  The tokens it hands out are described by
 * the list Tokens(address): the non-empty '/'-separated segments, in order.
 */
module OscDispatch {
  import opened OscBytes
  import opened OscMessage

  const Slash: Byte := 0x2F

  /* ---------------------------------------------------------------------
   * The token list
   * --------------------------------------------------------------------- */

  /** The string cut at every '/', empty pieces included. */
  function Segments(s: seq<Byte>): (r: seq<seq<Byte>>)
    ensures |r| >= 1
    ensures forall k :: 0 <= k < |r| ==> Slash !in r[k]
  {
    if s == [] then [[]]
    else
      var rest := Segments(s[1..]);
      if s[0] == Slash then [[]] + rest
      else [[s[0]] + rest[0]] + rest[1..]
  }

  /** The pieces that are not empty, in order. */
  function NonEmpty(ss: seq<seq<Byte>>): (r: seq<seq<Byte>>)
    ensures |r| <= |ss|
    ensures forall t :: t in r ==> t in ss && t != []
  {
    if ss == [] then []
    else if ss[0] == [] then NonEmpty(ss[1..])
    else [ss[0]] + NonEmpty(ss[1..])
  }

  /** The tokens strtok(…, "/") returns one call after another. */
  function Tokens(s: seq<Byte>): (r: seq<seq<Byte>>)
    ensures forall k :: 0 <= k < |r| ==> r[k] != [] && Slash !in r[k]
  {
    var ss := Segments(s);
    var r := NonEmpty(ss);
    assert forall k :: 0 <= k < |r| ==> r[k] in ss;
    r
  }

  /* ---------------------------------------------------------------------
   * One strtok call on the rest of the string
   * --------------------------------------------------------------------- */

  /** The delimiters strtok skips before a token. */
  function LeadingSlashes(s: seq<Byte>): (n: nat)
    ensures n <= |s|
    ensures forall k :: 0 <= k < n ==> s[k] == Slash
    ensures n < |s| ==> s[n] != Slash
  {
    if s != [] && s[0] == Slash then 1 + LeadingSlashes(s[1..]) else 0
  }

  /** The length of the token at the start of s: up to the next '/'. */
  function TokenLength(s: seq<Byte>): (n: nat)
    ensures n <= |s|
    ensures forall k :: 0 <= k < n ==> s[k] != Slash
    ensures n < |s| ==> s[n] == Slash
  {
    if s != [] && s[0] != Slash then 1 + TokenLength(s[1..]) else 0
  }

  /** The token one strtok call returns, None for NULL. */
  function FirstToken(s: seq<Byte>): (r: Option<seq<Byte>>)
    ensures r.Some? ==> r.value != [] && Slash !in r.value
  {
    var t := s[LeadingSlashes(s)..];
    if t == [] then None else Some(t[..TokenLength(t)])
  }

  /** What is left for the next call: the string after the '/' that ended the
      token, or nothing when the token (or the search) reached the end. */
  function AfterToken(s: seq<Byte>): (r: seq<Byte>)
    ensures |r| <= |s|
  {
    var t := s[LeadingSlashes(s)..];
    var n := TokenLength(t);
    if n < |t| then t[n + 1..] else []
  }

  /** Where one strtok call on s writes its NUL: over the '/' that ends the
      first token, or nowhere when the string ends first. */
  function CutAt(s: seq<Byte>): (r: Option<nat>)
    ensures r.Some? ==> r.value < |s| && s[r.value] == Slash
  {
    var n := LeadingSlashes(s);
    var t := s[n..];
    var m := TokenLength(t);
    if m < |t| then Some(n + m) else None
  }

  /** The whole array after one strtok call that continues at `from`: the
      same bytes but for that one NUL. */
  function CutBuffer(b: seq<Byte>, from: nat): (r: seq<Byte>)
    requires from < |b| && Nul in b[from..]
    ensures |r| == |b|
    ensures Nul in r[NextFrom(b, from)..]
    ensures forall k :: 0 <= k < |b| ==> r[k] == b[k] || (b[k] == Slash && r[k] == Nul)
  {
    var s := CString(b[from..]);
    var stop := from + |s|;
    assert b[stop] == Nul by {
      assert b[from..][|s|] == Nul;
    }
    match CutAt(s)
    case None =>
      assert b[NextFrom(b, from)..][stop - NextFrom(b, from)] == Nul;
      b
    case Some(c) =>
      var r := b[from + c := Nul];
      assert r[NextFrom(b, from)..][stop - NextFrom(b, from)] == Nul;
      r
  }

  /** Where the call after it continues: just past the NUL it wrote, or at
      the end of the string. */
  function NextFrom(b: seq<Byte>, from: nat): (r: nat)
    requires from < |b| && Nul in b[from..]
    ensures from <= r < |b|
  {
    var s := CString(b[from..]);
    match CutAt(s)
    case None => from + |s|
    case Some(c) => from + c + 1
  }

  lemma LeadingSlashesAt(s: seq<Byte>, n: nat)
    requires n <= |s| && forall k :: 0 <= k < n ==> s[k] == Slash
    requires n < |s| ==> s[n] != Slash
    ensures LeadingSlashes(s) == n
  {
  }

  lemma TokenLengthAt(s: seq<Byte>, n: nat)
    requires n <= |s| && forall k :: 0 <= k < n ==> s[k] != Slash
    requires n < |s| ==> s[n] == Slash
    ensures TokenLength(s) == n
  {
  }

  /** Cutting a string at its first '/' gives the part before it and the cuts
      of the rest. */
  lemma {:induction false} SegmentsSplit(s: seq<Byte>)
    ensures var n := TokenLength(s);
      Segments(s) == [s[..n]] + (if n < |s| then Segments(s[n + 1..]) else [])
    decreases |s|
  {
    if s != [] && s[0] != Slash {
      SegmentsSplit(s[1..]);
      var n := TokenLength(s);
      assert [s[0]] + s[1..][..n - 1] == s[..n];
      if n < |s| {
        assert s[1..][n..] == s[n + 1..];
      }
    }
  }

  /**
   * strtok and the token list agree: a call returns NULL exactly when no
   * token is left, and otherwise returns the first token and leaves exactly
   * the remaining tokens for the calls after it.
   */
  lemma {:induction false} TokensStep(s: seq<Byte>)
    ensures FirstToken(s).None? <==> Tokens(s) == []
    ensures FirstToken(s).Some? ==> Tokens(s) == [FirstToken(s).value] + Tokens(AfterToken(s))
    decreases |s|
  {
    if s == [] {
    } else if s[0] == Slash {
      SkipSlash(s);
      TokensStep(s[1..]);
    } else {
      TokenFirst(s);
    }
  }

  /** A leading '/' is skipped and forms no token. */
  lemma SkipSlash(s: seq<Byte>)
    requires s != [] && s[0] == Slash
    ensures FirstToken(s) == FirstToken(s[1..]) && AfterToken(s) == AfterToken(s[1..])
    ensures Tokens(s) == Tokens(s[1..])
  {
    assert s[LeadingSlashes(s)..] == s[1..][LeadingSlashes(s[1..])..];
    assert Segments(s) == [[]] + Segments(s[1..]);
  }

  /** A string that starts with a token: the token comes first in the list and
      the rest of the list is the tokens after it. */
  lemma TokenFirst(s: seq<Byte>)
    requires s != [] && s[0] != Slash
    ensures FirstToken(s) == Some(s[..TokenLength(s)])
    ensures Tokens(s) == [s[..TokenLength(s)]] + Tokens(AfterToken(s))
  {
    SegmentsSplit(s);
    var n := TokenLength(s);
    assert s[..n] != [] by {
      assert s[..n][0] == s[0];
    }
    assert s[LeadingSlashes(s)..] == s;
    if n < |s| {
      assert Segments(s) == [s[..n]] + Segments(s[n + 1..]);
    } else {
      assert Segments(s) == [s[..n]];
      assert Segments([]) == [[]];
    }
  }

  /** The address of a two-part method path, "/name/command", has exactly
      those two tokens. */
  lemma PathTokens(name: seq<Byte>, command: seq<Byte>)
    requires name != [] && Slash !in name
    requires command != [] && Slash !in command
    ensures Tokens([Slash] + name + [Slash] + command) == [name, command]
  {
    var s := [Slash] + name + [Slash] + command;
    NoSlashTokens(command);
    var t := s[1..];
    assert t == name + [Slash] + command;
    TokenLengthAt(t, |name|);
    assert t[..|name|] == name && t[|name| + 1..] == command;
    LeadingSlashesAt(s, 1);
    assert FirstToken(s) == Some(name) && AfterToken(s) == command;
    TokensStep(s);
  }

  /** The address "/name" has the one token name. */
  lemma OnePartPath(name: seq<Byte>)
    requires name != [] && Slash !in name
    ensures Tokens([Slash] + name) == [name]
  {
    SkipSlash([Slash] + name);
    assert ([Slash] + name)[1..] == name;
    NoSlashTokens(name);
  }

  /** A non-empty string without '/' is a single token. */
  lemma NoSlashTokens(s: seq<Byte>)
    requires s != [] && Slash !in s
    ensures Tokens(s) == [s]
  {
    LeadingSlashesAt(s, 0);
    TokenLengthAt(s, |s|);
    assert s[..|s|] == s;
    TokensStep(s);
    TokensStep([]);
  }

  /* ---------------------------------------------------------------------
   * strtok's state
   * --------------------------------------------------------------------- */

  /**
   * strtok with "/" as its delimiters, over one string.  The constructor is
   * the string argument of the first call; every call, the first included,
   * is a Scan.  `next` is the hidden pointer strtok keeps between calls.
   */
  class Strtok {
    var buf: array<Byte>
    var next: nat

    ghost predicate Valid()
      reads this, buf
    {
      next < buf.Length && Nul in buf[next..]
    }

    /** The string the next call continues with. */
    ghost function Remaining(): (r: seq<Byte>)
      reads this, buf
      requires Valid()
    {
      CString(buf[next..])
    }

    constructor (s: array<Byte>)
      requires Nul in s[..]
      ensures buf == s && next == 0 && Valid() && Remaining() == CString(s[..])
    {
      buf := s;
      next := 0;
      assert s[0..] == s[..];
    }

    /**
     * One call: skip the delimiters, return NULL if the string ended, else
     * overwrite the delimiter after the token (if any) with a NUL and return
     * the token.
     */
    method Scan() returns (tok: Option<seq<Byte>>)
      requires Valid()
      modifies this, buf
      ensures Valid() && buf == old(buf)
      ensures tok == FirstToken(old(Remaining()))
      ensures Remaining() == AfterToken(old(Remaining()))
      ensures buf[..] == CutBuffer(old(buf[..]), old(next))
      ensures next == NextFrom(old(buf[..]), old(next))
    {
      assert Remaining() == CString(buf[next..]);
      tok, next := StrtokStep(buf, next);
    }
  }

  /** The body of one strtok call on the array, continuing at `from`. */
  method StrtokStep(a: array<Byte>, from: nat) returns (tok: Option<seq<Byte>>, next: nat)
    requires from < a.Length && Nul in a[from..]
    modifies a
    ensures next < a.Length && Nul in a[next..]
    ensures tok == FirstToken(CString(old(a[from..])))
    ensures CString(a[next..]) == AfterToken(CString(old(a[from..])))
    ensures a[..] == CutBuffer(old(a[..]), from)
    ensures next == NextFrom(old(a[..]), from)
  {
    ghost var b := a[..];
    ghost var end := CStringEnd(b, from);
    assert CString(a[from..]) == b[from..end] by {
      assert a[from..] == b[from..];
    }
    var i := SkipDelimiters(a, from, end);
    assert CString(b[from..]) == b[from..end];
    if a[i] == Nul {
      NoTokenRun(b, from, end, i);
      next := i;
      CStringAt(a[next..], 0);
      return None, next;
    }
    var j := TokenEnd(a, i, end);
    TokenRun(b, from, end, i, j);
    tok := Some(a[i..j]);
    if a[j] == Nul {
      next := j;
      CStringAt(a[next..], 0);
    } else {
      a[j] := Nul;
      assert a[..] == b[j := Nul];
      next := j + 1;
      assert a[next..] == b[next..];
      TailCString(b, next, end);
    }
  }

  /** The loop of strtok that steps over delimiters, stopping at the first
      byte that is not a '/'. */
  method SkipDelimiters(a: array<Byte>, from: nat, ghost end: nat) returns (i: nat)
    requires from <= end < a.Length && a[end] == Nul
    ensures from <= i <= end && a[i] != Slash
    ensures forall k :: from <= k < i ==> a[k] == Slash
  {
    i := from;
    while a[i] == Slash
      invariant from <= i <= end
      invariant forall k :: from <= k < i ==> a[k] == Slash
      decreases end - i
    {
      i := i + 1;
    }
  }

  /** The loop of strtok that steps over the token, stopping at the first NUL
      or '/'. */
  method TokenEnd(a: array<Byte>, from: nat, ghost end: nat) returns (j: nat)
    requires from <= end < a.Length && a[end] == Nul
    ensures from <= j <= end && (a[j] == Nul || a[j] == Slash)
    ensures forall k :: from <= k < j ==> a[k] != Nul && a[k] != Slash
  {
    j := from;
    while a[j] != Nul && a[j] != Slash
      invariant from <= j <= end
      invariant forall k :: from <= k < j ==> a[k] != Nul && a[k] != Slash
      decreases end - j
    {
      j := j + 1;
    }
  }

  /** Only delimiters before the NUL that ends b[start..end]: no token, and
      nothing left. */
  lemma NoTokenRun(b: seq<Byte>, start: nat, end: nat, i: nat)
    requires start <= i <= end < |b| && b[i] == Nul
    requires forall k :: start <= k < end ==> b[k] != Nul
    requires forall k :: start <= k < i ==> b[k] == Slash
    ensures i == end && FirstToken(b[start..end]) == None && AfterToken(b[start..end]) == []
    ensures CutAt(b[start..end]) == None
  {
    var r := b[start..end];
    assert forall k :: 0 <= k < |r| ==> r[k] == b[start + k];
    LeadingSlashesAt(r, |r|);
  }

  /** Delimiters from start to i, then a token from i up to the '/' or the NUL
      at j: the call returns b[i..j] and leaves what follows a '/' at j. */
  lemma TokenRun(b: seq<Byte>, start: nat, end: nat, i: nat, j: nat)
    requires start <= i <= j <= end < |b| && b[end] == Nul && b[i] != Nul
    requires forall k :: start <= k < end ==> b[k] != Nul
    requires forall k :: start <= k < i ==> b[k] == Slash
    requires b[i] != Slash && (b[j] == Nul || b[j] == Slash)
    requires forall k :: i <= k < j ==> b[k] != Nul && b[k] != Slash
    ensures i < j && (b[j] == Nul <==> j == end)
    ensures FirstToken(b[start..end]) == Some(b[i..j])
    ensures AfterToken(b[start..end]) == if j < end then b[j + 1..end] else []
    ensures CutAt(b[start..end]) == if j < end then Some(j - start) else None
  {
    var r := b[start..end];
    assert TokenBounds(r, i - start, j - start) by {
      assert forall k :: 0 <= k < |r| ==> r[k] == b[start + k];
    }
    ScanSome(b, start, end, i, j);
  }

  /** A call on b[start..end] that skips delimiters up to i and finds the
      token ending at j returns b[i..j] and leaves what follows the '/' at j. */
  lemma ScanSome(b: seq<Byte>, start: nat, end: nat, i: nat, j: nat)
    requires start <= i < j <= end <= |b|
    requires TokenBounds(b[start..end], i - start, j - start)
    ensures FirstToken(b[start..end]) == Some(b[i..j])
    ensures AfterToken(b[start..end]) == if j < end then b[j + 1..end] else []
    ensures CutAt(b[start..end]) == if j < end then Some(j - start) else None
  {
    var r := b[start..end];
    TokenOf(r, i - start, j - start);
    assert FirstToken(r) == Some(b[i..j]) by {
      SubSlice(b, start, end, i - start, j - start);
    }
    if j < end {
      assert AfterToken(r) == b[j + 1..end] by {
        SubSliceTail(b, start, end, j - start + 1);
      }
    }
  }

  /** The delimiters run to i and the token from i to j, where a '/' (or the
      end of the string) stops it. */
  ghost predicate TokenBounds(r: seq<Byte>, i: nat, j: nat) {
    && i < j <= |r|
    && (forall k :: 0 <= k < i ==> r[k] == Slash)
    && (forall k :: i <= k < j ==> r[k] != Slash)
    && (j < |r| ==> r[j] == Slash)
  }

  /** The token one call finds when the delimiters end at i and the token at
      j, in terms of positions in the string itself. */
  lemma TokenOf(r: seq<Byte>, i: nat, j: nat)
    requires TokenBounds(r, i, j)
    ensures FirstToken(r) == Some(r[i..j])
    ensures AfterToken(r) == if j < |r| then r[j + 1..] else []
    ensures CutAt(r) == if j < |r| then Some(j) else None
  {
    LeadingSlashesAt(r, i);
    var t := r[i..];
    TokenLengthAt(t, j - i);
    assert t[..j - i] == r[i..j];
    if j < |r| {
      assert t[j - i + 1..] == r[j + 1..];
    }
  }

  lemma SubSliceTail(b: seq<Byte>, start: nat, end: nat, x: nat)
    requires start <= end <= |b| && x <= end - start
    ensures b[start..end][x..] == b[start + x..end]
  {
    var u, v := b[start..end][x..], b[start + x..end];
    assert |u| == |v|;
    assert forall k :: 0 <= k < |u| ==> u[k] == b[start + x + k] == v[k];
  }

  lemma SubSlice(b: seq<Byte>, start: nat, end: nat, x: nat, y: nat)
    requires start <= end <= |b| && x <= y <= end - start
    ensures b[start..end][x..y] == b[start + x..start + y]
  {
    var u, v := b[start..end][x..y], b[start + x..start + y];
    assert |u| == |v|;
    assert forall k :: 0 <= k < |u| ==> u[k] == b[start + x + k] == v[k];
  }

  /** Where the C string at `start` ends, so that the string is b[start..end]. */
  lemma CStringEnd(b: seq<Byte>, start: nat) returns (end: nat)
    requires start <= |b| && Nul in b[start..]
    ensures end == start + |CString(b[start..])| < |b| && b[end] == Nul
    ensures CString(b[start..]) == b[start..end]
    ensures forall k :: start <= k < end ==> b[k] != Nul
  {
    var r := CString(b[start..]);
    end := start + |r|;
    assert b[start..][|r|] == Nul;
    assert b[start..][..|r|] == b[start..end];
    assert forall k :: start <= k < end ==> b[k] == r[k - start];
  }

  /** The C string at a later position runs to the same terminator. */
  lemma TailCString(b: seq<Byte>, at: nat, end: nat)
    requires at <= end < |b| && b[end] == Nul
    requires forall k :: at <= k < end ==> b[k] != Nul
    ensures Nul in b[at..] && CString(b[at..]) == b[at..end]
  {
    assert b[at..][end - at] == Nul;
    CStringAt(b[at..], end - at);
    assert b[at..][..end - at] == b[at..end];
  }

  /* ---------------------------------------------------------------------
   * osc_dispatch
   * --------------------------------------------------------------------- */

  const PlayCommand: seq<Byte> := [0x70, 0x6C, 0x61, 0x79]  // "play"
  const IntPair: seq<Byte> := [0x2C, 0x69, 0x69]            // ",ii"

  /** What osc_dispatch does with a message. */
  datatype Action =
    | NoInstrument                               // no first token: strcmp is passed NULL (undefined)
    | OtherInstrument(name: seq<Byte>)           // "Message intended for …"; dropped
    | NoCommand                                  // no second token: strcmp is passed NULL (undefined)
    | Unrecognized(command: seq<Byte>)           // "Unrecognized address …"
    | IncorrectArguments(format: seq<Byte>, command: seq<Byte>)  // "Incorrect arguments …"
    | Play(pitch: Word, velocity: Word)          // the note to play

  /** The decision osc_dispatch takes, over the token list of the address. */
  function Decide(instrumentName: seq<Byte>, address: seq<Byte>, format: seq<Byte>, data: seq<Byte>): (act: Action)
    requires |data| >= 8
    ensures act.Play? <==>
      var ts := Tokens(address);
      |ts| >= 2 && ts[0] == instrumentName && ts[1] == PlayCommand && format == IntPair
    ensures act.Play? ==> act.pitch == NetworkWord(data[0..4]) && act.velocity == NetworkWord(data[4..8])
  {
    var ts := Tokens(address);
    if |ts| == 0 then NoInstrument
    else if ts[0] != instrumentName then OtherInstrument(ts[0])
    else if |ts| == 1 then NoCommand
    else if ts[1] != PlayCommand then Unrecognized(ts[1])
    else if format != IntPair then IncorrectArguments(format, ts[1])
    else
      SwapOfHostWordIsNetworkWord(data[0..4]);
      SwapOfHostWordIsNetworkWord(data[4..8]);
      Play(SwapEndian(HostWord(data[0..4])), SwapEndian(HostWord(data[4..8])))
  }

  /**
   * osc_dispatch on the address array of a message.  The two strtok calls
   * tokenise the array in place; the data words are loaded in host order and
   * swapped, as getIntAtIndex does.
   */
  method Dispatch(instrumentName: seq<Byte>, address: array<Byte>, format: seq<Byte>, data: seq<Byte>)
    returns (act: Action)
    requires Nul in address[..] && |data| >= 8
    modifies address
    ensures act == Decide(instrumentName, CString(old(address[..])), format, data)
    ensures address[..] ==
      if act.NoInstrument? || act.OtherInstrument? then CutBuffer(old(address[..]), 0)
      else CutBuffer(CutBuffer(old(address[..]), 0), NextFrom(old(address[..]), 0))
  {
    ghost var b := address[..];
    ghost var s := CString(b);
    DecideSteps(instrumentName, s, format, data);
    var tokens := new Strtok(address);
    var token := tokens.Scan();
    if token.None? {
      return NoInstrument;
    }
    if token.value != instrumentName {
      return OtherInstrument(token.value);
    }
    assert tokens.buf[..] == CutBuffer(b, 0) && tokens.next == NextFrom(b, 0);
    act := DispatchCommand(tokens, format, data);
  }

  /** The rest of osc_dispatch once the name matched: the second strtok call
      for the command, the check of the format and the two word loads. */
  method DispatchCommand(tokens: Strtok, format: seq<Byte>, data: seq<Byte>) returns (act: Action)
    requires tokens.Valid() && |data| >= 8
    modifies tokens, tokens.buf
    ensures tokens.buf == old(tokens.buf)
    ensures act ==
      match FirstToken(old(tokens.Remaining()))
      case None => NoCommand
      case Some(command) =>
        if command != PlayCommand then Unrecognized(command)
        else if format != IntPair then IncorrectArguments(format, command)
        else Play(SwapEndian(HostWord(data[0..4])), SwapEndian(HostWord(data[4..8])))
    ensures tokens.buf[..] == CutBuffer(old(tokens.buf[..]), old(tokens.next))
  {
    var token := tokens.Scan();
    if token.None? {
      return NoCommand;
    }
    if token.value != PlayCommand {
      return Unrecognized(token.value);
    }
    if format != IntPair {
      return IncorrectArguments(format, token.value);
    }
    var pitch := HostWord(data[0..4]);
    var velocity := HostWord(data[4..8]);
    pitch := SwapEndian(pitch);
    velocity := SwapEndian(velocity);
    act := Play(pitch, velocity);
  }

  /** Decide as osc_dispatch reaches it: one strtok call for the instrument
      name and, only when that matches, a second one for the command. */
  lemma DecideSteps(instrumentName: seq<Byte>, s: seq<Byte>, format: seq<Byte>, data: seq<Byte>)
    requires |data| >= 8
    ensures Decide(instrumentName, s, format, data) ==
      match FirstToken(s)
      case None => NoInstrument
      case Some(name) =>
        if name != instrumentName then OtherInstrument(name)
        else match FirstToken(AfterToken(s))
          case None => NoCommand
          case Some(command) =>
            if command != PlayCommand then Unrecognized(command)
            else if format != IntPair then IncorrectArguments(format, command)
            else Play(SwapEndian(HostWord(data[0..4])), SwapEndian(HostWord(data[4..8])))
  {
    TokensStep(s);
    TokensStep(AfterToken(s));
  }

  /** A message whose first token is not the instrument's name is dropped
      before anything else is looked at. */
  lemma DecideOther(instrumentName: seq<Byte>, address: seq<Byte>, format: seq<Byte>, data: seq<Byte>)
    requires |data| >= 8
    requires Tokens(address) != [] && Tokens(address)[0] != instrumentName
    ensures Decide(instrumentName, address, format, data) == OtherInstrument(Tokens(address)[0])
  {
  }

  /** A "play" for this instrument with format ",ii" plays the two words read
      in host order and swapped. */
  lemma DecidePlay(instrumentName: seq<Byte>, address: seq<Byte>, format: seq<Byte>, data: seq<Byte>)
    requires |data| >= 8
    requires Tokens(address) == [instrumentName, PlayCommand] && format == IntPair
    ensures Decide(instrumentName, address, format, data)
      == Play(SwapEndian(HostWord(data[0..4])), SwapEndian(HostWord(data[4..8])))
  {
  }

  /** The words a played note carries are the ones getIntAtIndex reads at
      indices 0 and 1. */
  lemma PlayReadsLikeGetIntAtIndex(instrumentName: seq<Byte>, m: Message)
    requires m.Valid()
    ensures var act := Decide(instrumentName, m.address, m.format, m.data);
      act.Play? ==> act.pitch == GetIntAtIndex(m, 0) && act.velocity == GetIntAtIndex(m, 1)
  {
  }
}
