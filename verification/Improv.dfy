/** improv.cpp: the builder and the parser of Improv frames. */
module Improv {
  type Octet = x: int | 0 <= x < 256

  const UNKNOWN: Octet := 0x00
  const WIFI_SETTINGS: Octet := 0x01
  const BAD_CHECKSUM: Octet := 0xFF

  /** `ImprovCommand`. */
  datatype Command = Command(command: Octet, ssid: seq<Octet>, password: seq<Octet>)

  function Sum(s: seq<Octet>): (n: nat) {
    if s == [] then 0 else Sum(s[..|s| - 1]) + s[|s| - 1]
  }

  // ---- frames ----

  /** Each string behind its length, which a byte truncates. */
  function Body(datum: seq<seq<Octet>>): seq<Octet> {
    if datum == [] then []
    else
      var last := datum[|datum| - 1];
      Body(datum[..|datum| - 1]) + [|last| % 256] + last
  }

  /** Command, length of the body, body. */
  function Head(command: Octet, datum: seq<seq<Octet>>): seq<Octet> {
    [command, |Body(datum)| % 256] + Body(datum)
  }

  /** The last byte is there even when no checksum is asked for. */
  function Frame(command: Octet, datum: seq<seq<Octet>>, checksum: bool): seq<Octet> {
    Head(command, datum) + [if checksum then Sum(Head(command, datum)) % 256 else 0]
  }

  lemma {:induction false} BodySteps(datum: seq<seq<Octet>>, n: nat)
    requires n < |datum|
    ensures Body(datum[..n + 1]) == Body(datum[..n]) + [|datum[n]| % 256] + datum[n]
    ensures |Body(datum[..n + 1])| <= |Body(datum)|
    decreases |datum|
  {
    assert datum[..n + 1][..n] == datum[..n];
    if n + 1 < |datum| {
      BodySteps(datum[..|datum| - 1], n);
      assert datum[..|datum| - 1][..n + 1] == datum[..n + 1];
      assert datum[..|datum| - 1][..n] == datum[..n];
    } else {
      assert datum[..n + 1] == datum;
    }
  }

  /** `build_rpc_response`. */
  method BuildRpcResponse(command: Octet, datum: seq<seq<Octet>>, checksum: bool) returns (frame: seq<Octet>)
    ensures frame == Frame(command, datum, checksum)
  {
    var length := 3 + |datum|;
    for i := 0 to |datum|
      invariant length == 3 + |datum| - i + |Body(datum[..i])|
    {
      BodySteps(datum, i);
      length := length + |datum[i]|;
    }
    assert datum[..|datum|] == datum;
    var out := new Octet[length](_ => 0);
    var pos := PutStrings(out, datum);
    out[0], out[1] := command, (pos - 2) % 256;
    assert out[..length - 1] == Head(command, datum);
    if checksum {
      var sum := SumOf(out);
      SumOfHead(out[..]);
      out[length - 1] := sum % 256;
    }
    assert out[..] == Head(command, datum) + [out[length - 1]];
    return out[..];
  }

  lemma SumOfHead(s: seq<Octet>)
    requires s != [] && s[|s| - 1] == 0
    ensures Sum(s) == Sum(s[..|s| - 1])
  {
  }

  /** The strings behind their lengths, from the third byte on. */
  method PutStrings(out: array<Octet>, datum: seq<seq<Octet>>) returns (pos: nat)
    requires out.Length == 3 + |Body(datum)|
    modifies out
    ensures pos == out.Length - 1
    ensures out[2..pos] == Body(datum) && out[out.Length - 1] == old(out[out.Length - 1])
  {
    hide Body;
    ghost var body := Body(datum);
    NoStrings(datum);
    pos := 2;
    for i := 0 to |datum|
      invariant pos == 2 + |Body(datum[..i])| <= 2 + |body|
      invariant out[2..pos] == Body(datum[..i])
      invariant out[out.Length - 1] == old(out[out.Length - 1])
    {
      BodySteps(datum, i);
      var piece := [|datum[i]| % 256] + datum[i];
      assert Body(datum[..i + 1]) == Body(datum[..i]) + piece;
      Append(out, pos, piece);
      pos := pos + |piece|;
    }
    assert datum[..|datum|] == datum;
  }

  lemma NoStrings(datum: seq<seq<Octet>>)
    ensures Body(datum[..0]) == []
  {
  }

  method SumOf(out: array<Octet>) returns (sum: nat)
    ensures sum == Sum(out[..])
  {
    sum := 0;
    for i := 0 to out.Length
      invariant sum == Sum(out[..i])
    {
      assert out[..i + 1][..i] == out[..i];
      sum := sum + out[i];
    }
    assert out[..out.Length] == out[..];
  }

  /** `memcpy` into the output. */
  method Append(out: array<Octet>, pos: nat, s: seq<Octet>)
    requires pos + |s| <= out.Length
    modifies out
    ensures out[..] == old(out[..pos]) + s + old(out[pos + |s|..])
  {
    for i := 0 to |s|
      invariant out[..] == old(out[..pos]) + s[..i] + old(out[pos + i..])
    {
      out[pos + i] := s[i];
    }
  }

  // ---- parsing ----

  const REJECTED := Command(UNKNOWN, [], [])
  const BAD_SUM := Command(BAD_CHECKSUM, [], [])

  /** What becomes of a call: a command, a read beyond the data, or a loop that never ends. */
  datatype Outcome =
    | Parsed(command: Command)
    | ReadsPast
    | Endless

  /** The stated length disagrees with the real one; the unsigned difference wraps for data that are too short. */
  predicate WrongLength(data: seq<Octet>, check: bool)
    requires |data| >= 2
  {
    var expected := |data| - 2 - (if check then 1 else 0);
    expected < 0 || data[1] != expected
  }

  predicate WrongSum(data: seq<Octet>)
    requires |data| >= 1
  {
    Sum(data[..|data| - 1]) % 256 != data[|data| - 1]
  }

  /** The increment of a one-byte counter. */
  function Bump(i: Octet): Octet {
    if i == 255 then 0 else i + 1
  }

  /** The counter of the checksum loop after `n` rounds. */
  function Counter(n: nat): Octet {
    if n == 0 then 0 else Bump(Counter(n - 1))
  }

  lemma {:induction false} CounterCounts(n: nat)
    requires n <= 255
    ensures Counter(n) == n
  {
    if n > 0 {
      CounterCounts(n - 1);
    }
  }

  /** The loop over the first `bound` bytes ends exactly when the bound fits the counter. */
  lemma ChecksumLoopEnds(bound: nat)
    ensures (exists n :: Counter(n) >= bound) <==> bound <= 255
  {
    if bound <= 255 {
      CounterCounts(bound);
      assert Counter(bound) >= bound;
    }
  }

  /** The name and the password, which the parser reads without asking whether their length bytes are there. */
  function Strings(data: seq<Octet>): Outcome
    requires |data| >= 2
  {
    if |data| == 2 then ReadsPast
    else
      var ssidEnd := 3 + (data[2] as nat);
      if ssidEnd > |data| then Parsed(REJECTED)
      else if ssidEnd == |data| then ReadsPast
      else
        var passEnd := ssidEnd + 1 + data[ssidEnd];
        if passEnd > |data| then Parsed(REJECTED)
        else Parsed(Command(WIFI_SETTINGS, data[3..ssidEnd], data[ssidEnd + 1..passEnd]))
  }

  function Parse(data: seq<Octet>, check: bool): Outcome {
    if |data| < 2 then ReadsPast
    else if WrongLength(data, check) then Parsed(REJECTED)
    else if check && |data| - 1 > 255 then Endless
    else if check && WrongSum(data) then Parsed(BAD_SUM)
    else if data[0] == WIFI_SETTINGS then Strings(data)
    else Parsed(Command(data[0], [], []))
  }

  /** `parse_improv_data`. Where the source would never return or would read beyond its data, the method says so. */
  method ParseImprovData(data: seq<Octet>, check: bool) returns (outcome: Outcome)
    ensures outcome == Parse(data, check)
  {
    if |data| < 2 {
      return ReadsPast;
    }
    var expected := |data| - 2 - (if check then 1 else 0);
    if expected < 0 || data[1] != expected {
      return Parsed(REJECTED);
    }
    if check {
      var sum: nat, i: Octet := 0, 0;
      while i < |data| - 1
        invariant i <= |data| - 1 && sum == Sum(data[..i])
        decreases |data| - i
      {
        assert data[..i + 1][..i] == data[..i];
        sum := sum + data[i];
        i := Bump(i);
        if i == 0 {
          // Back at the start with every byte still to go: from here the rounds repeat for ever.
          return Endless;
        }
      }
      if sum % 256 != data[|data| - 1] {
        return Parsed(BAD_SUM);
      }
    }
    if data[0] == WIFI_SETTINGS {
      if |data| == 2 {
        return ReadsPast;
      }
      var ssidEnd := 3 + (data[2] as nat);
      if ssidEnd > |data| {
        return Parsed(REJECTED);
      }
      if ssidEnd == |data| {
        return ReadsPast;
      }
      var passEnd := ssidEnd + 1 + data[ssidEnd];
      if passEnd > |data| {
        return Parsed(REJECTED);
      }
      return Parsed(Command(WIFI_SETTINGS, data[3..ssidEnd], data[ssidEnd + 1..passEnd]));
    }
    return Parsed(Command(data[0], [], []));
  }

  /** A checked parse never returns exactly for data of 257 or 258 bytes that state their length correctly. */
  lemma EndlessExactly(data: seq<Octet>, check: bool)
    ensures Parse(data, check) == Endless
       <==> check && (|data| == 257 || |data| == 258) && data[1] == |data| - 3
  {
  }

  /** The parser reads beyond its data exactly for a missing header and for a missing name or password length. */
  lemma ReadsPastExactly(data: seq<Octet>, check: bool)
    ensures Parse(data, check) == ReadsPast
       <==> || |data| < 2
            || (!check && data == [WIFI_SETTINGS, 0])
            || (&& 2 < |data| && !WrongLength(data, check) && !(check && (|data| > 256 || WrongSum(data)))
                && data[0] == WIFI_SETTINGS && data[2] == |data| - 3)
  {
    if |data| == 2 && data[0] == WIFI_SETTINGS && data[1] == 0 {
      assert data == [WIFI_SETTINGS, 0];
    }
  }

  // ---- builder and parser together ----

  /** A frame states its sum correctly, and its length exactly if the body is shorter than 256 bytes. */
  lemma FrameIsSound(command: Octet, datum: seq<seq<Octet>>)
    ensures var f := Frame(command, datum, true);
            && !WrongSum(f) && |f| == |Body(datum)| + 3
            && (WrongLength(f, true) <==> |Body(datum)| > 255)
  {
    var f := Frame(command, datum, true);
    assert f[..|f| - 1] == Head(command, datum);
  }

  lemma WifiBody(ssid: seq<Octet>, pass: seq<Octet>)
    ensures Body([ssid, pass]) == [|ssid| % 256] + ssid + [|pass| % 256] + pass
  {
    assert [ssid, pass][..1] == [ssid] && [ssid][..0] == [];
    assert Body([ssid]) == [] + [|ssid| % 256] + ssid;
  }

  lemma WifiStrings(ssid: seq<Octet>, pass: seq<Octet>)
    requires 2 + |ssid| + |pass| <= 255
    ensures Strings(Frame(WIFI_SETTINGS, [ssid, pass], true)) == Parsed(Command(WIFI_SETTINGS, ssid, pass))
  {
    var f := Frame(WIFI_SETTINGS, [ssid, pass], true);
    var body := [|ssid|] + ssid + [|pass|] + pass;
    WifiBody(ssid, pass);
    assert f[2..|f| - 1] == body;
    assert f[2] == body[0] && f[3 + |ssid|] == body[1 + |ssid|];
    assert f[3..3 + |ssid|] == ssid && f[4 + |ssid|..4 + |ssid| + |pass|] == pass;
  }

  /**
   A network name and a password come back as they were sent exactly if they fill at most 253 bytes with their lengths.
   With 254 or 255 the parser hangs on the frame, with more it refuses it.
   */
  lemma WifiRoundTrip(ssid: seq<Octet>, pass: seq<Octet>)
    ensures var outcome := Parse(Frame(WIFI_SETTINGS, [ssid, pass], true), true);
            var length := 2 + |ssid| + |pass|;
            && (outcome == Parsed(Command(WIFI_SETTINGS, ssid, pass)) <==> length <= 253)
            && (outcome == Endless <==> 254 <= length <= 255)
            && (outcome == Parsed(REJECTED) <==> length > 255)
  {
    hide Strings, Frame;
    WifiBody(ssid, pass);
    FrameIsSound(WIFI_SETTINGS, [ssid, pass]);
    FirstByte(WIFI_SETTINGS, [ssid, pass]);
    if 2 + |ssid| + |pass| <= 255 {
      WifiStrings(ssid, pass);
    }
  }

  lemma FirstByte(command: Octet, datum: seq<seq<Octet>>)
    ensures Frame(command, datum, true)[0] == command
  {
  }

  /** Every other command comes back alone, under the same bounds on the body. */
  lemma OtherRoundTrip(command: Octet, datum: seq<seq<Octet>>)
    requires command != WIFI_SETTINGS
    ensures var outcome := Parse(Frame(command, datum, true), true);
            outcome == if |Body(datum)| <= 253 then Parsed(Command(command, [], []))
                       else if |Body(datum)| <= 255 then Endless
                       else Parsed(REJECTED)
  {
    hide Frame;
    FrameIsSound(command, datum);
    FirstByte(command, datum);
  }

  lemma {:induction false} SumChanges(s: seq<Octet>, k: nat, b: Octet)
    requires k < |s|
    ensures Sum(s[k := b]) == Sum(s) - s[k] + b
  {
    var n := |s| - 1;
    if k < n {
      assert s[k := b][..n] == s[..n][k := b];
      SumChanges(s[..n], k, b);
    } else {
      assert s[k := b][..n] == s[..n];
    }
  }

  /** No single changed byte goes unnoticed: a changed length is refused, any other change spoils the sum. */
  lemma ChangedByteIsNoticed(command: Octet, datum: seq<seq<Octet>>, k: nat, b: Octet)
    requires |Body(datum)| <= 253
    requires var f := Frame(command, datum, true);
             k < |f| && b != f[k]
    ensures Parse(Frame(command, datum, true)[k := b], true) == Parsed(if k == 1 then REJECTED else BAD_SUM)
  {
    var f := Frame(command, datum, true);
    var n := |f| - 1;
    FrameIsSound(command, datum);
    if k == n {
      assert f[k := b][..n] == f[..n];
    } else {
      assert f[k := b][..n] == f[..n][k := b];
      SumChanges(f[..n], k, b);
      DifferentRemainders(Sum(f[..n]), f[k], b);
    }
  }

  lemma DifferentRemainders(sum: nat, x: Octet, y: Octet)
    requires x != y
    ensures (sum - x + y) % 256 != sum % 256
  {
  }

  /** A frame built without a checksum never parses: its last byte is one too many for its length. */
  lemma UncheckedFrameIsRefused(command: Octet, datum: seq<seq<Octet>>)
    ensures Parse(Frame(command, datum, false), false) == Parsed(REJECTED)
  {
  }

  /** One frame in bytes: network "A", password "b". */
  lemma SampleFrame()
    ensures Frame(1, [[0x41], [0x62]], true) == [0x01, 0x04, 0x01, 0x41, 0x01, 0x62, 0xaa]
    ensures Parse([0x01, 0x04, 0x01, 0x41, 0x01, 0x62, 0xaa], true) == Parsed(Command(1, [0x41], [0x62]))
  {
    var f: seq<Octet> := [0x01, 0x04, 0x01, 0x41, 0x01, 0x62, 0xaa];
    WifiBody([0x41], [0x62]);
    assert Body([[0x41], [0x62]]) == [1, 0x41, 1, 0x62];
    var head: seq<Octet> := [0x01, 0x04, 0x01, 0x41, 0x01, 0x62];
    assert Head(1, [[0x41], [0x62]]) == head;
    SumOfSample();
    assert Frame(1, [[0x41], [0x62]], true) == f;
    WifiRoundTrip([0x41], [0x62]);
  }

  lemma SumOfSample()
    ensures Sum([0x01, 0x04, 0x01, 0x41, 0x01, 0x62]) == 0xaa
  {
    var s: seq<Octet> := [0x01, 0x04, 0x01, 0x41, 0x01, 0x62];
    assert s[..5][..4] == s[..4] && s[..4][..3] == s[..3] && s[..3][..2] == s[..2] && s[..2][..1] == s[..1];
    assert s[..1][..0] == [];
    assert Sum(s[..1]) == 1 && Sum(s[..2]) == 5 && Sum(s[..3]) == 6 && Sum(s[..4]) == 71 && Sum(s[..5]) == 72;
  }

  /** How the refusals look: a wrong length is command 0, a wrong sum command 255. */
  lemma SampleRefusals()
    ensures Parse([0x01, 0x05, 0x01, 0x41, 0x01, 0x62, 0xaa], true) == Parsed(Command(0, [], []))
    ensures Parse([0x01, 0x04, 0x01, 0x41, 0x01, 0x62, 0xab], true) == Parsed(Command(255, [], []))
  {
    var f: seq<Octet> := [0x01, 0x04, 0x01, 0x41, 0x01, 0x62, 0xaa];
    SampleFrame();
    ChangedByteIsNoticed(1, [[0x41], [0x62]], 1, 0x05);
    ChangedByteIsNoticed(1, [[0x41], [0x62]], 6, 0xab);
    WifiBody([0x41], [0x62]);
    assert f[1 := 0x05] == [0x01, 0x05, 0x01, 0x41, 0x01, 0x62, 0xaa];
    assert f[6 := 0xab] == [0x01, 0x04, 0x01, 0x41, 0x01, 0x62, 0xab];
  }
}
