/** The SCRAM-SHA-256 server: a three-message exchange, and what its success proves. SHA-256 and
    HMAC-SHA-256 are arbitrary functions. */
module Scram {
  import opened Basics
  import opened Wrappers
  import opened Text
  import opened Base64
  import opened SaslMessages

  // ---- Keys and proofs ------------------------------------------------------------

  datatype Crypto = Crypto(hash: seq<byte> -> seq<byte>, mac: (seq<byte>, string) -> seq<byte>)

  const DIGEST_LENGTH: nat := 32

  ghost predicate HasDigestLength(crypto: Crypto) {
    && (forall b: seq<byte> :: |crypto.hash(b)| == DIGEST_LENGTH)
    && forall key: seq<byte>, text: string :: |crypto.mac(key, text)| == DIGEST_LENGTH
  }

  /** The exclusive or of the low `n` bits. */
  function XorBits(x: nat, y: nat, n: nat): (r: nat)
    ensures r < Pow2(n)
  {
    if n == 0 then 0 else 2 * XorBits(x / 2, y / 2, n - 1) + (x + y) % 2
  }

  lemma LastBit(x: nat, y: nat, h: nat)
    ensures var r := 2 * h + (x + y) % 2;
            r / 2 == h && (r + y) % 2 == x % 2 && x == 2 * (x / 2) + x % 2
  {
  }

  lemma XorUnfolds(x: nat, y: nat, n: nat)
    requires n > 0
    ensures XorBits(x, y, n) == 2 * XorBits(x / 2, y / 2, n - 1) + (x + y) % 2
    ensures x < Pow2(n) ==> x / 2 < Pow2(n - 1)
  {
  }

  lemma {:induction false} XorBitsTwice(x: nat, y: nat, n: nat)
    requires x < Pow2(n)
    ensures XorBits(XorBits(x, y, n), y, n) == x
  {
    if n > 0 {
      hide XorBits, Pow2;
      var r, h := XorBits(x, y, n), XorBits(x / 2, y / 2, n - 1);
      XorUnfolds(x, y, n);
      XorBitsTwice(x / 2, y / 2, n - 1);
      LastBit(x, y, h);
      XorUnfolds(r, y, n);
    }
  }

  function Xor(x: byte, y: byte): byte {
    assert Pow2(8) == 256;
    XorBits(x, y, 8)
  }

  function XorAll(a: seq<byte>, b: seq<byte>): (r: seq<byte>)
    requires |a| == |b|
    ensures |r| == |a| && forall i :: 0 <= i < |a| ==> r[i] == Xor(a[i], b[i])
  {
    seq(|a|, i requires 0 <= i < |a| => Xor(a[i], b[i]))
  }

  lemma XorAllTwice(a: seq<byte>, b: seq<byte>)
    requires |a| == |b|
    ensures XorAll(XorAll(a, b), b) == a
  {
    forall i | 0 <= i < |a| ensures XorAll(XorAll(a, b), b)[i] == a[i] {
      XorBitsTwice(a[i], b[i], 8);
    }
  }

  /** Bit `k` of a number, from the lowest. */
  function Bit(x: nat, k: nat): bool {
    if k == 0 then x % 2 == 1 else Bit(x / 2, k - 1)
  }

  /** The exclusive or is that of each bit. */
  lemma {:induction false} XorIsBitwise(x: nat, y: nat, n: nat, k: nat)
    requires k < n
    ensures Bit(XorBits(x, y, n), k) <==> Bit(x, k) != Bit(y, k)
    decreases n
  {
    var h := XorBits(x / 2, y / 2, n - 1);
    LowestBit(h, x, y);
    if k > 0 {
      XorIsBitwise(x / 2, y / 2, n - 1, k - 1);
    }
  }

  lemma LowestBit(h: nat, x: nat, y: nat)
    ensures var r := 2 * h + (x + y) % 2; r / 2 == h && (r % 2 == 1 <==> (x % 2 == 1) != (y % 2 == 1))
  {
  }

  lemma XorAllIsBitwise(a: seq<byte>, b: seq<byte>, i: nat, k: nat)
    requires |a| == |b| && i < |a| && k < 8
    ensures Bit(XorAll(a, b)[i], k) <==> Bit(a[i], k) != Bit(b[i], k)
  {
    XorIsBitwise(a[i], b[i], 8, k);
  }

  /** The proof opens the stored key: hashing what it unmasks gives the stored key. */
  predicate Proves(crypto: Crypto, storedKey: seq<byte>, authMessage: string, proof: seq<byte>) {
    var signature := crypto.mac(storedKey, authMessage);
    |proof| == |signature| && crypto.hash(XorAll(proof, signature)) == storedKey
  }

  method VerifyClientProof(crypto: Crypto, storedKey: seq<byte>, authMessage: string, proofText: string)
    returns (r: Result<bool, StepError>)
    ensures r == if Decode(proofText).None? then Err(InvalidProof)
                 else Ok(Proves(crypto, storedKey, authMessage, Decode(proofText).value))
  {
    var decoded := Decode(proofText);
    if decoded.None? {
      return Err(InvalidProof);
    }
    var proof := decoded.value;
    var signature := crypto.mac(storedKey, authMessage);
    if |proof| != |signature| {
      return Ok(false);
    }
    var clientKey := new byte[|proof|](_ => 0);
    for i := 0 to |proof|
      invariant forall j :: 0 <= j < i ==> clientKey[j] == Xor(proof[j], signature[j])
    {
      clientKey[i] := Xor(proof[i], signature[i]);
    }
    assert clientKey[..] == XorAll(proof, signature);
    return Ok(crypto.hash(clientKey[..]) == storedKey);
  }

  // ---- Messages of the server -------------------------------------------------------

  function HexDigit(d: nat): (c: char)
    requires d < 16
    ensures c != ','
  {
    "0123456789abcdef"[d]
  }

  function Hex(b: seq<byte>): (s: string)
    ensures |s| == 2 * |b| && ',' !in s
  {
    if b == [] then "" else [HexDigit(b[0] / 16), HexDigit(b[0] % 16)] + Hex(b[1..])
  }

  function HexValue(c: char): nat {
    if '0' <= c <= '9' then c as nat - '0' as nat else if 'a' <= c <= 'f' then c as nat - 'a' as nat + 10 else 0
  }

  /** Two digits a byte, the high one first. */
  lemma {:induction false} HexIsRead(b: seq<byte>, i: nat)
    requires i < |b|
    ensures 16 * HexValue(Hex(b)[2 * i]) + HexValue(Hex(b)[2 * i + 1]) == b[i]
  {
    var head := [HexDigit(b[0] / 16), HexDigit(b[0] % 16)];
    if i == 0 {
      HexDigitIsRead(b[0] / 16);
      HexDigitIsRead(b[0] % 16);
    } else {
      HexIsRead(b[1..], i - 1);
      assert Hex(b) == head + Hex(b[1..]);
      assert Hex(b)[2 * i] == Hex(b[1..])[2 * (i - 1)] && Hex(b)[2 * i + 1] == Hex(b[1..])[2 * (i - 1) + 1];
    }
  }

  lemma HexDigitIsRead(d: nat)
    requires d < 16
    ensures HexValue(HexDigit(d)) == d
  {
  }

  /** So different random bytes give different nonces. */
  lemma HexIsInjective(a: seq<byte>, b: seq<byte>)
    requires Hex(a) == Hex(b)
    ensures a == b
  {
    assert 2 * |a| == |Hex(a)| == 2 * |b|;
    hide Hex, HexValue;
    forall i | 0 <= i < |a| ensures a[i] == b[i] {
      HexIsRead(a, i);
      HexIsRead(b, i);
    }
  }

  function ServerFirst(nonce: string, salt: seq<byte>, iterations: nat): string {
    "r=" + nonce + ",s=" + Encode(salt) + ",i=" + Decimal(iterations)
  }

  function AuthMessage(clientFirstBare: string, serverFirst: string, clientFinalWithoutProof: string): string {
    clientFirstBare + "," + serverFirst + "," + clientFinalWithoutProof
  }

  /** What a client reads from the server-first message: three fields, in the order of section 5.1
      of RFC 5802, that are the nonce, the salt and the iteration count. */
  lemma ServerFirstIsRead(nonce: string, salt: seq<byte>, iterations: nat)
    requires ',' !in nonce
    ensures var fields := Split(ServerFirst(nonce, salt, iterations), ',');
            && |fields| == 3
            && StripPrefix(fields[0], "r=") == Some(nonce)
            && StripPrefix(fields[1], "s=").Some? && Decode(StripPrefix(fields[1], "s=").value) == Some(salt)
            && StripPrefix(fields[2], "i=").Some?
            && ParseUnsigned(StripPrefix(fields[2], "i=").value, iterations) == Some(iterations)
  {
    var s, i := Encode(salt), Decimal(iterations);
    EncodingAlphabet(salt, ',');
    DecimalHasOnlyDigits(iterations, ',');
    DecodeOfEncode(salt);
    ParseOfDecimal(iterations, iterations);
    hide Encode, Decode, Decimal, ParseUnsigned, Split, StripPrefix;
    FieldsOfServerFirst(nonce, s, i);
    PrefixIsStripped("r=", nonce);
    PrefixIsStripped("s=", s);
    PrefixIsStripped("i=", i);
  }

  lemma FieldsOfServerFirst(nonce: string, s: string, i: string)
    requires ',' !in nonce && ',' !in s && ',' !in i
    ensures Split("r=" + nonce + ",s=" + s + ",i=" + i, ',') == ["r=" + nonce, "s=" + s, "i=" + i]
  {
    hide *;
    SplitOfThree("r=" + nonce, "s=" + s, "i=" + i, ',');
    GroupFields("r=" + nonce, s, i);
  }

  lemma GroupFields(first: string, s: string, i: string)
    ensures first + ",s=" + s + ",i=" + i == first + [','] + (("s=" + s) + [','] + ("i=" + i))
  {
    assert ",s=" == [','] + "s=" && ",i=" == [','] + "i=";
  }

  lemma PrefixIsStripped(prefix: string, s: string)
    ensures StripPrefix(prefix + s, prefix) == Some(s)
  {
  }

  // ---- The exchange as a value --------------------------------------------------------

  datatype SaslState = Initial | Challenge | FinalData | Success | Failed

  datatype SaslStep = Done(success: bool, username: Option<string>) | Send(data: string)

  datatype Params = Params(salt: seq<byte>, iterations: nat)

  /** The credential store at one step; `None` is an error. */
  datatype Backend = Backend(
    params: string -> Option<Params>,
    storedKey: string -> Option<seq<byte>>,
    serverKey: string -> Option<seq<byte>>)

  /** What one step is given: the client's response (`None` when it is not UTF-8), the store, and
      fresh random bytes. */
  datatype Input = Input(response: Option<string>, backend: Backend, random: seq<byte>)

  datatype Exchange = Exchange(
    state: SaslState,
    clientFirstBare: Option<string>,
    serverNonce: Option<string>,
    username: Option<string>,
    salt: Option<seq<byte>>,
    iterations: Option<nat>,
    authenticatedUser: Option<string>)

  const FRESH: Exchange := Exchange(Initial, None, None, None, None, None, None)

  type Reply = Result<SaslStep, StepError>

  const REJECTED: Reply := Ok(Done(false, None))

  function OnClientFirst(x: Exchange, input: Input): (Exchange, Reply) {
    if input.response.None? then (x, Err(InvalidUtf8))
    else
      var parsed := ClientFirstOf(input.response.value);
      if parsed.Err? then (x, Err(parsed.error))
      else
        var first := parsed.value;
        var params := input.backend.params(first.username);
        if params.None? then (x, Err(BackendFailed))
        else
          var nonce := first.nonce + Hex(input.random);
          (Exchange(Challenge, Some(first.bare), Some(nonce), Some(first.username),
                    Some(params.value.salt), Some(params.value.iterations), x.authenticatedUser),
           Ok(Send(ServerFirst(nonce, params.value.salt, params.value.iterations))))
  }

  function OnClientFinal(x: Exchange, crypto: Crypto, input: Input): (Exchange, Reply) {
    if input.response.None? then (x, Err(InvalidUtf8))
    else
      var parsed := ClientFinalOf(input.response.value);
      if parsed.Err? then (x, Err(parsed.error))
      else
        var final := parsed.value;
        if final.channelBinding != "biws" then (x.(state := Failed), REJECTED)
        else if x.serverNonce.None? then (x, Err(NothingStored))
        else if final.nonce != x.serverNonce.value then (x.(state := Failed), REJECTED)
        else if x.username.None? then (x, Err(NothingStored))
        else OnProof(x, crypto, input.backend, final)
  }

  function OnProof(x: Exchange, crypto: Crypto, backend: Backend, final: ClientFinal): (Exchange, Reply)
    requires x.serverNonce.Some? && x.username.Some?
  {
    var name := x.username.value;
    var storedKey, serverKey := backend.storedKey(name), backend.serverKey(name);
    if storedKey.None? || serverKey.None? then (x, Err(BackendFailed))
    else if x.clientFirstBare.None? || x.salt.None? || x.iterations.None? then (x, Err(NothingStored))
    else
      var authMessage := AuthMessage(
        x.clientFirstBare.value,
        ServerFirst(x.serverNonce.value, x.salt.value, x.iterations.value),
        final.withoutProof);
      var proof := Decode(final.proof);
      if proof.None? then (x, Err(InvalidProof))
      else if !Proves(crypto, storedKey.value, authMessage, proof.value) then (x.(state := Failed), REJECTED)
      else if !ValidUsername(name) then (x.(state := FinalData), Err(InvalidUsername))
      else
        (x.(state := FinalData, authenticatedUser := Some(name)),
         Ok(Send("v=" + Encode(crypto.mac(serverKey.value, authMessage)))))
  }

  function NextStep(x: Exchange, crypto: Crypto, input: Input): (Exchange, Reply) {
    match x.state
    case Initial => OnClientFirst(x, input)
    case Challenge => OnClientFinal(x, crypto, input)
    case FinalData => (x.(state := Success), Ok(Done(true, x.authenticatedUser)))
    case Success => (x.(state := Failed), REJECTED)
    case Failed => (x, REJECTED)
  }

  // ---- The mechanism ---------------------------------------------------------------------

  class ScramSha256Mechanism {
    var state: SaslState
    var clientFirstBare: Option<string>
    var serverNonce: Option<string>
    var username: Option<string>
    var salt: Option<seq<byte>>
    var iterations: Option<nat>
    var authenticatedUser: Option<string>

    ghost function View(): Exchange
      reads this
    {
      Exchange(state, clientFirstBare, serverNonce, username, salt, iterations, authenticatedUser)
    }

    constructor ()
      ensures View() == FRESH
    {
      state := Initial;
      clientFirstBare, serverNonce, username, salt, iterations, authenticatedUser :=
        None, None, None, None, None, None;
    }

    method Reset()
      modifies this
      ensures View() == FRESH
    {
      state := Initial;
      clientFirstBare := None;
      serverNonce := None;
      username := None;
      salt := None;
      iterations := None;
      authenticatedUser := None;
    }

    method Step(crypto: Crypto, input: Input) returns (r: Reply)
      modifies this
      ensures (View(), r) == NextStep(old(View()), crypto, input)
    {
      match state
      case Initial => r := AcceptClientFirst(input);
      case Challenge => r := AcceptClientFinal(crypto, input);
      case FinalData =>
        state := Success;
        r := Ok(Done(true, authenticatedUser));
      case _ =>
        state := Failed;
        r := REJECTED;
    }

    method AcceptClientFirst(input: Input) returns (r: Reply)
      requires state == Initial
      modifies this
      ensures (View(), r) == OnClientFirst(old(View()), input)
    {
      if input.response.None? {
        return Err(InvalidUtf8);
      }
      var parsed := ParseClientFirst(input.response.value);
      if parsed.Err? {
        return Err(parsed.error);
      }
      var first := parsed.value;
      var params := input.backend.params(first.username);
      if params.None? {
        return Err(BackendFailed);
      }
      var nonce := first.nonce + Hex(input.random);
      username := Some(first.username);
      clientFirstBare := Some(first.bare);
      serverNonce := Some(nonce);
      salt := Some(params.value.salt);
      iterations := Some(params.value.iterations);
      state := Challenge;
      return Ok(Send(ServerFirst(nonce, params.value.salt, params.value.iterations)));
    }

    method AcceptClientFinal(crypto: Crypto, input: Input) returns (r: Reply)
      requires state == Challenge
      modifies this
      ensures (View(), r) == OnClientFinal(old(View()), crypto, input)
    {
      if input.response.None? {
        return Err(InvalidUtf8);
      }
      var parsed := ParseClientFinal(input.response.value);
      if parsed.Err? {
        return Err(parsed.error);
      }
      var final := parsed.value;
      if final.channelBinding != "biws" {
        state := Failed;
        return REJECTED;
      }
      if serverNonce.None? {
        return Err(NothingStored);
      }
      if final.nonce != serverNonce.value {
        state := Failed;
        return REJECTED;
      }
      if username.None? {
        return Err(NothingStored);
      }
      r := AcceptProof(crypto, input.backend, final);
    }

    method AcceptProof(crypto: Crypto, backend: Backend, final: ClientFinal) returns (r: Reply)
      requires serverNonce.Some? && username.Some?
      modifies this
      ensures (View(), r) == OnProof(old(View()), crypto, backend, final)
    {
      var storedKey := backend.storedKey(username.value);
      var serverKey := backend.serverKey(username.value);
      if storedKey.None? || serverKey.None? {
        return Err(BackendFailed);
      }
      if clientFirstBare.None? || salt.None? || iterations.None? {
        return Err(NothingStored);
      }
      var serverFirst := ServerFirst(serverNonce.value, salt.value, iterations.value);
      var authMessage := AuthMessage(clientFirstBare.value, serverFirst, final.withoutProof);
      var valid := VerifyClientProof(crypto, storedKey.value, authMessage, final.proof);
      if valid.Err? {
        return Err(valid.error);
      }
      if !valid.value {
        state := Failed;
        return REJECTED;
      }
      state := FinalData;
      if !ValidUsername(username.value) {
        return Err(InvalidUsername);
      }
      authenticatedUser := Some(username.value);
      return Ok(Send("v=" + Encode(crypto.mac(serverKey.value, authMessage))));
    }
  }

  // ---- Runs ---------------------------------------------------------------------------------

  datatype Event = Step(input: Input) | Reset

  function Apply(x: Exchange, crypto: Crypto, e: Event): Exchange {
    match e
    case Step(input) => NextStep(x, crypto, input).0
    case Reset => FRESH
  }

  function Run(crypto: Crypto, events: seq<Event>): Exchange {
    if events == [] then FRESH
    else Apply(Run(crypto, events[..|events| - 1]), crypto, events[|events| - 1])
  }

  /** No reset since event `i`, which is a step. */
  ghost predicate Unbroken(events: seq<Event>, i: nat) {
    i < |events| && forall k :: i <= k < |events| ==> events[k].Step?
  }

  /** `input` is a well-formed client-first for a user of the store; the exchange remembers it. */
  ghost predicate Remembers(x: Exchange, input: Input) {
    && input.response.Some? && ClientFirstOf(input.response.value).Ok?
    && var first := ClientFirstOf(input.response.value).value;
       && x.username == Some(first.username)
       && x.clientFirstBare == Some(first.bare)
       && x.serverNonce == Some(first.nonce + Hex(input.random))
       && x.salt.Some? && x.iterations.Some?
       && input.backend.params(first.username) == Some(Params(x.salt.value, x.iterations.value))
  }

  /** `input` answers the challenge of exchange `x`: channel binding `biws`, the issued nonce, and a
      proof that opens the key stored for the remembered user. */
  ghost predicate Answers(x: Exchange, crypto: Crypto, input: Input) {
    && x.username.Some? && x.clientFirstBare.Some? && x.serverNonce.Some? && x.salt.Some? && x.iterations.Some?
    && input.response.Some? && ClientFinalOf(input.response.value).Ok?
    && var final := ClientFinalOf(input.response.value).value;
       && final.channelBinding == "biws" && final.nonce == x.serverNonce.value
       && input.backend.storedKey(x.username.value).Some? && Decode(final.proof).Some?
       && Proves(crypto, input.backend.storedKey(x.username.value).value,
                 AuthMessage(x.clientFirstBare.value,
                             ServerFirst(x.serverNonce.value, x.salt.value, x.iterations.value),
                             final.withoutProof),
                 Decode(final.proof).value)
  }

  ghost predicate Challenged(events: seq<Event>, x: Exchange, i: nat) {
    Unbroken(events, i) && Remembers(x, events[i].input)
  }

  ghost predicate Proven(crypto: Crypto, events: seq<Event>, x: Exchange, i: nat, j: nat) {
    i < j < |events| && Challenged(events, x, i) && Answers(x, crypto, events[j].input)
  }

  /** What every run keeps. */
  ghost predicate Accounted(crypto: Crypto, events: seq<Event>, x: Exchange) {
    match x.state
    case Initial => x == FRESH
    case Challenge => x.authenticatedUser.None? && exists i :: Challenged(events, x, i)
    case FinalData => UserMatches(x) && exists i, j :: Proven(crypto, events, x, i, j)
    case Success => UserMatches(x) && exists i, j :: Proven(crypto, events, x, i, j)
    case Failed => true
  }

  /** The authenticated user is the one the exchange is about, if the name is short enough. */
  ghost predicate UserMatches(x: Exchange) {
    x.username.Some? && x.authenticatedUser == if ValidUsername(x.username.value) then x.username else None
  }

  lemma StepIsAccounted(crypto: Crypto, events: seq<Event>, x: Exchange, input: Input)
    requires Accounted(crypto, events, x)
    ensures Accounted(crypto, events + [Step(input)], NextStep(x, crypto, input).0)
  {
    hide ClientFirstOf, ClientFinalOf, Proves, ServerFirst, AuthMessage, Decode, ValidUsername, Hex, Encode, Decimal;
    var more, y := events + [Step(input)], NextStep(x, crypto, input).0;
    match x.state
    case Initial =>
      if y.state == Challenge {
        assert Challenged(more, y, |events|);
      }
    case Challenge =>
      var i: nat :| Challenged(events, x, i);
      assert Challenged(more, x, i);
      if y.state == Challenge {
        assert y == x;
      } else if y.state == FinalData {
        assert Remembers(y, more[i].input);
        assert Answers(y, crypto, more[|events|].input);
        assert Proven(crypto, more, y, i, |events|);
      }
    case FinalData =>
      var i: nat, j: nat :| Proven(crypto, events, x, i, j);
      assert Proven(crypto, more, y, i, j);
    case _ =>
  }

  lemma {:induction false} RunsAreAccounted(crypto: Crypto, events: seq<Event>)
    ensures Accounted(crypto, events, Run(crypto, events))
  {
    if events != [] {
      var front, last := events[..|events| - 1], events[|events| - 1];
      RunsAreAccounted(crypto, front);
      assert events == front + [last];
      if last.Step? {
        hide NextStep, Accounted;
        StepIsAccounted(crypto, front, Run(crypto, front), last.input);
      }
    }
  }

  /** A reply of success needs a proof: since the last reset there was a client-first for the user,
      then a client-final that answered its challenge. The user named is that user. */
  lemma SuccessNeedsProof(crypto: Crypto, events: seq<Event>, input: Input) returns (i: nat, j: nat)
    requires var reply := NextStep(Run(crypto, events), crypto, input).1;
             reply.Ok? && reply.value.Done? && reply.value.success
    ensures Proven(crypto, events, Run(crypto, events), i, j)
    ensures var x := Run(crypto, events);
            NextStep(x, crypto, input).1.value.username == if ValidUsername(x.username.value) then x.username else None
  {
    RunsAreAccounted(crypto, events);
    var x := Run(crypto, events);
    i, j :| Proven(crypto, events, x, i, j);
  }

  /** A well-formed client-final with another binding, another nonce, or a proof that does not open
      the stored key. */
  ghost predicate AnswersWrongly(x: Exchange, crypto: Crypto, input: Input)
    requires x.username.Some? && x.clientFirstBare.Some? && x.serverNonce.Some? && x.salt.Some? && x.iterations.Some?
  {
    && input.response.Some? && ClientFinalOf(input.response.value).Ok?
    && var final := ClientFinalOf(input.response.value).value;
       var storedKey := input.backend.storedKey(x.username.value);
       || final.channelBinding != "biws"
       || final.nonce != x.serverNonce.value
       || (&& storedKey.Some? && input.backend.serverKey(x.username.value).Some? && Decode(final.proof).Some?
           && !Answers(x, crypto, input))
  }

  /** A challenge allows one answer: a wrong one is rejected and ends the exchange, a right one moves
      it on, and only a message that cannot be read, or a store that fails, leaves it open. */
  lemma ChallengeAllowsOneAnswer(x: Exchange, crypto: Crypto, input: Input)
    requires x.state == Challenge
    requires x.username.Some? && x.clientFirstBare.Some? && x.serverNonce.Some? && x.salt.Some? && x.iterations.Some?
    ensures var (y, reply) := NextStep(x, crypto, input);
            && (AnswersWrongly(x, crypto, input) ==> y == x.(state := Failed) && reply == REJECTED)
            && (y.state == FinalData
                <==> Answers(x, crypto, input) && input.backend.serverKey(x.username.value).Some?)
            && (!AnswersWrongly(x, crypto, input) && y.state != FinalData ==> y == x && reply.Err?)
  {
    hide ClientFinalOf, Decode, Encode, Proves, AuthMessage, ServerFirst, ValidUsername;
  }

  function Steps(x: Exchange, crypto: Crypto, inputs: seq<Input>): Exchange
    decreases |inputs|
  {
    if inputs == [] then x else Steps(NextStep(x, crypto, inputs[0]).0, crypto, inputs[1..])
  }

  /** After a success or a failure every reply is a rejection, until a reset. */
  lemma {:induction false} OnlyResetReopens(crypto: Crypto, x: Exchange, inputs: seq<Input>, input: Input)
    requires x.state == Success || x.state == Failed
    ensures NextStep(Steps(x, crypto, inputs), crypto, input).1 == REJECTED
    decreases |inputs|
  {
    if inputs == [] {
    } else {
      OnlyResetReopens(crypto, NextStep(x, crypto, inputs[0]).0, inputs[1..], input);
    }
  }

  // ---- The honest client ------------------------------------------------------------------------

  /** The text both sides sign, for a client that sends its user name and nonce only: the client's
      first message, the server's, and the client's last without its proof (section 3 of RFC 5802). */
  function SharedText(user: string, clientNonce: string, nonce: string, params: Params): string {
    "n=" + user + ",r=" + clientNonce + ","
    + "r=" + nonce + ",s=" + Encode(params.salt) + ",i=" + Decimal(params.iterations) + ","
    + "c=biws,r=" + nonce
  }

  /** The server assembles that text, and the client's printers write the messages of section 7. */
  lemma TextsOfTheExchange(user: string, clientNonce: string, nonce: string, params: Params, proof: string)
    ensures SharedText(user, clientNonce, nonce, params)
            == AuthMessage("n=" + user + ",r=" + clientNonce,
                           ServerFirst(nonce, params.salt, params.iterations), PrintWithoutProof(nonce))
    ensures PrintClientFirst(user, clientNonce) == "n,,n=" + user + ",r=" + clientNonce
    ensures PrintClientFinal(nonce, proof) == "c=biws,r=" + nonce + ",p=" + proof
    ensures ServerFirst(nonce, params.salt, params.iterations)
            == "r=" + nonce + ",s=" + Encode(params.salt) + ",i=" + Decimal(params.iterations)
  {
    hide Encode, Decimal;
    var salt, i := Encode(params.salt), Decimal(params.iterations);
    JoinTexts("n=" + user + ",r=" + clientNonce, "r=" + nonce + ",s=" + salt + ",i=" + i, "c=biws,r=" + nonce);
    GroupTexts("n=" + user + ",r=" + clientNonce, nonce, salt, i);
  }

  lemma JoinTexts(a: string, b: string, c: string)
    ensures AuthMessage(a, b, c) == a + "," + b + "," + c
  {
  }

  lemma GroupTexts(a: string, nonce: string, salt: string, i: string)
    ensures a + "," + "r=" + nonce + ",s=" + salt + ",i=" + i + "," + "c=biws,r=" + nonce
            == a + "," + ("r=" + nonce + ",s=" + salt + ",i=" + i) + "," + ("c=biws,r=" + nonce)
  {
  }

  /** The proof of a client that holds `clientKey`: the key masked by its signature. */
  function Masked(crypto: Crypto, clientKey: seq<byte>, storedKey: seq<byte>, text: string): seq<byte>
    requires |clientKey| == |crypto.mac(storedKey, text)|
  {
    XorAll(clientKey, crypto.mac(storedKey, text))
  }

  lemma FirstIsChallenged(
      crypto: Crypto, backend: Backend, user: string, clientNonce: string, random: seq<byte>, params: Params)
    requires ',' !in user && ',' !in clientNonce
    requires backend.params(user) == Some(params)
    ensures var nonce := clientNonce + Hex(random);
            NextStep(FRESH, crypto, Input(Some(PrintClientFirst(user, clientNonce)), backend, random))
            == (Exchange(Challenge, Some("n=" + user + ",r=" + clientNonce), Some(nonce), Some(user),
                         Some(params.salt), Some(params.iterations), None),
                Ok(Send(ServerFirst(nonce, params.salt, params.iterations))))
  {
    hide ClientFirstOf, PrintClientFirst, ServerFirst;
    ClientFirstRoundTrip(user, clientNonce);
  }

  /** What a proof of `clientKey` leads to: nothing but a key that hashes to the stored key gets on,
      and the user name is only looked at after that. */
  ghost function Answered(x: Exchange, crypto: Crypto, storedKey: seq<byte>, serverKey: seq<byte>,
                          clientKey: seq<byte>, text: string): (Exchange, Reply)
    requires x.username.Some?
  {
    if crypto.hash(clientKey) != storedKey then (x.(state := Failed), REJECTED)
    else if !ValidUsername(x.username.value) then (x.(state := FinalData), Err(InvalidUsername))
    else (x.(state := FinalData, authenticatedUser := x.username), Ok(Send("v=" + Encode(crypto.mac(serverKey, text)))))
  }

  lemma FinalIsAnswered(crypto: Crypto, x: Exchange, backend: Backend, random: seq<byte>,
                        storedKey: seq<byte>, serverKey: seq<byte>, clientKey: seq<byte>)
    requires HasDigestLength(crypto) && |clientKey| == DIGEST_LENGTH
    requires x.state == Challenge && x.clientFirstBare.Some? && x.salt.Some? && x.iterations.Some?
    requires x.username.Some?
    requires x.serverNonce.Some? && ',' !in x.serverNonce.value
    requires backend.storedKey(x.username.value) == Some(storedKey)
    requires backend.serverKey(x.username.value) == Some(serverKey)
    ensures var text := AuthMessage(x.clientFirstBare.value,
                                    ServerFirst(x.serverNonce.value, x.salt.value, x.iterations.value),
                                    PrintWithoutProof(x.serverNonce.value));
            var proof := Encode(Masked(crypto, clientKey, storedKey, text));
            NextStep(x, crypto, Input(Some(PrintClientFinal(x.serverNonce.value, proof)), backend, random))
            == Answered(x, crypto, storedKey, serverKey, clientKey, text)
  {
    hide ClientFinalOf, PrintClientFinal, ServerFirst, PrintWithoutProof, AuthMessage, Decode, Encode, ValidUsername;
    var text := AuthMessage(x.clientFirstBare.value,
                            ServerFirst(x.serverNonce.value, x.salt.value, x.iterations.value),
                            PrintWithoutProof(x.serverNonce.value));
    var proof := Masked(crypto, clientKey, storedKey, text);
    DecodeOfEncode(proof);
    EncodingAlphabet(proof, ',');
    ClientFinalRoundTrip(x.serverNonce.value, Encode(proof));
    XorAllTwice(clientKey, crypto.mac(storedKey, text));
  }

  /** A client that answers with the proof of its key passes exactly when its key hashes to the
      stored key. It is then told the signature of the server key and named in the end, except that
      an empty or over-long user name makes the second step an error and the third a success for
      nobody. Any other key is rejected. */
  lemma ClientAcceptedIffKeyMatches(
      crypto: Crypto, backend: Backend, user: string, clientNonce: string, random: seq<byte>, params: Params,
      storedKey: seq<byte>, serverKey: seq<byte>, clientKey: seq<byte>, last: Input)
    requires HasDigestLength(crypto) && |clientKey| == DIGEST_LENGTH
    requires ',' !in user && ',' !in clientNonce
    requires backend.params(user) == Some(params)
    requires backend.storedKey(user) == Some(storedKey) && backend.serverKey(user) == Some(serverKey)
    ensures var nonce := clientNonce + Hex(random);
            var text := SharedText(user, clientNonce, nonce, params);
            var proof := Encode(Masked(crypto, clientKey, storedKey, text));
            var opening, answer := "n,,n=" + user + ",r=" + clientNonce, "c=biws,r=" + nonce + ",p=" + proof;
            var (x1, first) := NextStep(FRESH, crypto, Input(Some(opening), backend, random));
            var (x2, second) := NextStep(x1, crypto, Input(Some(answer), backend, random));
            var (x3, third) := NextStep(x2, crypto, last);
            && first == Ok(Send("r=" + nonce + ",s=" + Encode(params.salt) + ",i=" + Decimal(params.iterations)))
            && if crypto.hash(clientKey) != storedKey then second == REJECTED && third == REJECTED
               else if ValidUsername(user) then
                 && second == Ok(Send("v=" + Encode(crypto.mac(serverKey, text))))
                 && third == Ok(Done(true, Some(user)))
               else second == Err(InvalidUsername) && third == Ok(Done(true, None))
  {
    hide ClientFinalOf, ClientFirstOf, PrintClientFirst, PrintClientFinal, ServerFirst, PrintWithoutProof,
      AuthMessage, SharedText, Decimal, Decode, Encode, Masked, ValidUsername, OnClientFinal, OnClientFirst;
    FirstIsChallenged(crypto, backend, user, clientNonce, random, params);
    var x1 := NextStep(FRESH, crypto, Input(Some(PrintClientFirst(user, clientNonce)), backend, random)).0;
    FinalIsAnswered(crypto, x1, backend, random, storedKey, serverKey, clientKey);
    var nonce := clientNonce + Hex(random);
    var proof := Encode(Masked(crypto, clientKey, storedKey, SharedText(user, clientNonce, nonce, params)));
    TextsOfTheExchange(user, clientNonce, nonce, params, proof);
  }
}
