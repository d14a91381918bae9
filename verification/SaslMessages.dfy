/** The SASL messages of PLAIN and SCRAM-SHA-256: their parsers and the printers they invert. */
module SaslMessages {
  import opened Wrappers
  import opened Text
  import opened Base64

  // ---- Message fields ----------------------------------------------------------

  function StripPrefix(s: string, prefix: string): (r: Option<string>)
    ensures r.Some? <==> prefix <= s
    ensures r.Some? ==> s == prefix + r.value
  {
    if prefix <= s then Some(s[|prefix|..]) else None
  }

  /** The value of the last field that starts with `key`. */
  function Field(parts: seq<string>, key: string): Option<string> {
    if parts == [] then None
    else
      var last := StripPrefix(parts[|parts| - 1], key);
      if last.Some? then last else Field(parts[..|parts| - 1], key)
  }

  lemma FieldOfSnoc(parts: seq<string>, i: nat, key: string)
    requires i < |parts|
    ensures var here := StripPrefix(parts[i], key);
            Field(parts[..i + 1], key) == if here.Some? then here else Field(parts[..i], key)
  {
    assert parts[..i + 1][..i] == parts[..i];
  }

  lemma {:induction false} FieldOfAppend(a: seq<string>, b: seq<string>, key: string)
    ensures Field(a + b, key) == if Field(b, key).Some? then Field(b, key) else Field(a, key)
  {
    if b == [] {
      assert a + b == a;
    } else {
      FieldOfAppend(a, b[..|b| - 1], key);
      assert (a + b)[..|a + b| - 1] == a + b[..|b| - 1];
    }
  }

  lemma {:induction false} FieldIsAPart(parts: seq<string>, key: string)
    ensures Field(parts, key).Some? <==> exists i :: 0 <= i < |parts| && key <= parts[i]
    ensures Field(parts, key).Some? ==> exists i :: 0 <= i < |parts| && parts[i] == key + Field(parts, key).value
  {
    if parts != [] {
      FieldIsAPart(parts[..|parts| - 1], key);
      assert parts == parts[..|parts| - 1] + [parts[|parts| - 1]];
    }
  }

  lemma FieldHasNoSeparator(s: string, sep: char, key: string)
    ensures Field(Split(s, sep), key).Some? ==> sep !in Field(Split(s, sep), key).value
  {
    FieldIsAPart(Split(s, sep), key);
  }

  lemma DifferentKeys(part: string, x: char, y: char)
    requires x != y
    ensures !([x, '='] <= part && [y, '='] <= part)
  {
    assert [x, '='] <= part ==> part[0] == x;
    assert [y, '='] <= part ==> part[0] == y;
  }

  lemma OccursInTail<T>(s: seq<T>, from: nat, pat: seq<T>, j: int)
    requires from <= |s| && OccursAt(s[from..], pat, j)
    ensures OccursAt(s, pat, from + j)
  {
    assert s[from + j..from + j + |pat|] == s[from..][j..j + |pat|];
  }

  lemma SplitOfThree<T>(a: seq<T>, b: seq<T>, c: seq<T>, sep: T)
    ensures Join([a, b, c], sep) == a + [sep] + (b + [sep] + c)
    ensures sep !in a && sep !in b && sep !in c ==>
              Split(a + [sep] + (b + [sep] + c), sep) == [a, b, c]
  {
    assert [a, b, c][1..] == [b, c] && [b, c][1..] == [c];
    assert Join([b, c], sep) == b + [sep] + c;
    if sep !in a && sep !in b && sep !in c {
      SplitOfJoin([a, b, c], sep);
    }
  }

  // ---- Parsers -------------------------------------------------------------------

  datatype StepError = InvalidUtf8 | InvalidMessage | BackendFailed | InvalidProof | InvalidUsername | NothingStored

  datatype ClientFirst = ClientFirst(username: string, nonce: string, bare: string)

  datatype ClientFinal = ClientFinal(channelBinding: string, nonce: string, proof: string, withoutProof: string)

  function ClientFirstOf(msg: string): Result<ClientFirst, StepError> {
    var bare := StripPrefix(msg, "n,,");
    if bare.None? then Err(InvalidMessage)
    else
      var parts := Split(bare.value, ',');
      var username, nonce := Field(parts, "n="), Field(parts, "r=");
      if username.None? || nonce.None? then Err(InvalidMessage)
      else Ok(ClientFirst(username.value, nonce.value, bare.value))
  }

  function ClientFinalOf(msg: string): Result<ClientFinal, StepError> {
    var cut := FindLast(msg, ",p=");
    var parts := Split(msg, ',');
    var c, r, p := Field(parts, "c="), Field(parts, "r="), Field(parts, "p=");
    if cut.None? || c.None? || r.None? || p.None? then Err(InvalidMessage)
    else Ok(ClientFinal(c.value, r.value, p.value, msg[..cut.value]))
  }

  /** One pass over the fields; a later field of the same name replaces an earlier one. */
  method ParseClientFirst(msg: string) returns (r: Result<ClientFirst, StepError>)
    ensures r == ClientFirstOf(msg)
  {
    var bare := StripPrefix(msg, "n,,");
    if bare.None? {
      return Err(InvalidMessage);
    }
    var username, nonce: Option<string> := None, None;
    var parts := Split(bare.value, ',');
    for i := 0 to |parts|
      invariant username == Field(parts[..i], "n=") && nonce == Field(parts[..i], "r=")
    {
      hide Split, Field;
      FieldOfSnoc(parts, i, "n=");
      FieldOfSnoc(parts, i, "r=");
      DifferentKeys(parts[i], 'n', 'r');
      var n, r := StripPrefix(parts[i], "n="), StripPrefix(parts[i], "r=");
      if n.Some? {
        username := n;
      } else if r.Some? {
        nonce := r;
      }
    }
    assert parts[..|parts|] == parts;
    if username.None? || nonce.None? {
      return Err(InvalidMessage);
    }
    return Ok(ClientFirst(username.value, nonce.value, bare.value));
  }

  method ParseClientFinal(msg: string) returns (r: Result<ClientFinal, StepError>)
    ensures r == ClientFinalOf(msg)
  {
    var channelBinding, nonce, proof: Option<string> := None, None, None;
    var cut := FindLast(msg, ",p=");
    if cut.None? {
      return Err(InvalidMessage);
    }
    var parts := Split(msg, ',');
    for i := 0 to |parts|
      invariant channelBinding == Field(parts[..i], "c=")
      invariant nonce == Field(parts[..i], "r=") && proof == Field(parts[..i], "p=")
    {
      hide Split, Field;
      FieldOfSnoc(parts, i, "c=");
      FieldOfSnoc(parts, i, "r=");
      FieldOfSnoc(parts, i, "p=");
      DifferentKeys(parts[i], 'c', 'r');
      DifferentKeys(parts[i], 'c', 'p');
      DifferentKeys(parts[i], 'r', 'p');
      var c, n, p := StripPrefix(parts[i], "c="), StripPrefix(parts[i], "r="), StripPrefix(parts[i], "p=");
      if c.Some? {
        channelBinding := c;
      } else if n.Some? {
        nonce := n;
      } else if p.Some? {
        proof := p;
      }
    }
    assert parts[..|parts|] == parts;
    if channelBinding.None? || nonce.None? || proof.None? {
      return Err(InvalidMessage);
    }
    return Ok(ClientFinal(channelBinding.value, nonce.value, proof.value, msg[..cut.value]));
  }

  lemma {:induction false} SplitHead(s: string, sep: char)
    ensures Split(s, sep)[0] == s[..IndexOf(s, sep)]
  {
  }

  /** A field after the first one is preceded by the separator. */
  lemma {:induction false} LaterFieldOccurs(s: string, sep: char, i: nat) returns (k: nat)
    requires 0 < i < |Split(s, sep)|
    ensures OccursAt(s, [sep] + Split(s, sep)[i], k)
    decreases |s|
  {
    hide Split, OccursAt, IndexOf;
    SplitTail(s, sep);
    var n := IndexOf(s, sep);
    var tail := s[n + 1..];
    assert Split(s, sep)[i] == Split(tail, sep)[i - 1];
    if i == 1 {
      k := n;
      SplitHead(tail, sep);
      OccursAfter(s, n, IndexOf(tail, sep));
    } else {
      var j := LaterFieldOccurs(tail, sep, i - 1);
      OccursInTail(s, n + 1, [sep] + Split(tail, sep)[i - 1], j);
      k := n + 1 + j;
    }
  }

  lemma SplitTail(s: string, sep: char)
    requires |Split(s, sep)| > 1
    ensures IndexOf(s, sep) < |s|
    ensures Split(s, sep)[1..] == Split(s[IndexOf(s, sep) + 1..], sep)
  {
  }

  lemma OccursAfter(s: string, n: nat, m: nat)
    requires n + 1 + m <= |s|
    ensures OccursAt(s, [s[n]] + s[n + 1..][..m], n)
  {
    assert s[n..n + 1 + m] == [s[n]] + s[n + 1..][..m];
  }

  /** Cutting a message at its last proof separator. */
  lemma LastProofCut(msg: string) returns (before: string, after: string)
    requires FindLast(msg, ",p=").Some?
    ensures before == msg[..FindLast(msg, ",p=").value] && after == msg[FindLast(msg, ",p=").value + 1..]
    ensures msg == before + [','] + after && "p=" <= after
  {
    var k := FindLast(msg, ",p=").value;
    before, after := msg[..k], msg[k + 1..];
    assert msg[k..k + 3] == ",p=";
    assert msg[k] == msg[k..k + 3][0] && after[0] == msg[k..k + 3][1] && after[1] == msg[k..k + 3][2];
  }

  lemma OnlyFirstFieldHasKey(msg: string, k: nat, after: string)
    requires FindLast(msg, ",p=") == Some(k) && after == msg[k + 1..]
    ensures var parts := Split(after, ',');
            Field(parts, "p=") == StripPrefix(parts[0], "p=") && Field(parts, "p=").Some?
  {
    var parts := Split(after, ',');
    forall i | 0 < i < |parts| ensures !("p=" <= parts[i]) {
      if "p=" <= parts[i] {
        var j := LaterFieldOccurs(after, ',', i);
        assert after[j..j + 3] == ([','] + parts[i])[..3] == ",p=";
        OccursInTail(msg, k + 1, ",p=", j);
      }
    }
    SplitHead(after, ',');
    assert after[0] == 'p' && after[1] == '=';
    FieldOfAppend([parts[0]], parts[1..], "p=");
    assert [parts[0]] + parts[1..] == parts;
    FieldIsAPart(parts[1..], "p=");
  }

  /** The proof field is the text after the last proof separator, up to the next comma. */
  lemma ProofFollowsCut(msg: string, before: string, after: string)
    requires ClientFinalOf(msg).Ok?
    requires FindLast(msg, ",p=") == Some(|before|) && msg == before + [','] + after && "p=" <= after
    requires after == msg[|before| + 1..]
    ensures after[..IndexOf(after, ',')] == "p=" + ClientFinalOf(msg).value.proof
  {
    SplitOfAppend(before, after, ',');
    FieldOfAppend(Split(before, ','), Split(after, ','), "p=");
    OnlyFirstFieldHasKey(msg, |before|, after);
    hide Field, FindLast;
    SplitHead(after, ',');
  }

  lemma ClientFinalFields(msg: string)
    requires ClientFinalOf(msg).Ok?
    ensures FindLast(msg, ",p=").Some? && FindLast(msg, ",p=").value <= |msg|
    ensures ClientFinalOf(msg).value.withoutProof == msg[..FindLast(msg, ",p=").value]
    ensures ',' !in ClientFinalOf(msg).value.proof
  {
    FieldHasNoSeparator(msg, ',', "p=");
  }

  lemma Reassemble(before: string, key: string, proof: string, rest: string)
    requires key == "p="
    ensures before + [','] + (key + proof + rest) == before + ",p=" + proof + rest
  {
    assert [','] + key == ",p=";
    assert before + [','] + (key + proof + rest) == before + ([','] + key) + proof + rest;
  }

  lemma NothingFollowsLast(msg: string, k: nat, from: nat)
    requires FindLast(msg, ",p=") == Some(k) && k < from <= |msg|
    ensures Find(msg[from..], ",p=").None?
  {
    var found := Find(msg[from..], ",p=");
    if found.Some? {
      OccursInTail(msg, from, ",p=", found.value);
    }
  }

  /** The search from the right and the field loop cut the message at the same place: it is the
      part without proof, then the proof, then nothing or a comma and more fields, none of which is
      a proof. */
  lemma ClientFinalIsConsistent(msg: string) returns (rest: string)
    requires ClientFinalOf(msg).Ok?
    ensures var m := ClientFinalOf(msg).value;
            msg == m.withoutProof + ",p=" + m.proof + rest && ',' !in m.proof
    ensures (rest == "" || rest[0] == ',') && Find(rest, ",p=").None?
  {
    ClientFinalFields(msg);
    hide *;
    var m, k := ClientFinalOf(msg).value, FindLast(msg, ",p=").value;
    var before, after := LastProofCut(msg);
    ProofFollowsCut(msg, before, after);
    var n := IndexOf(after, ',');
    rest := after[n..];
    NothingFollowsLast(msg, k, k + 1 + n);
    assert msg[k + 1 + n..] == rest;
    Reassemble(before, "p=", m.proof, rest);
    assert after == after[..n] + rest;
  }

  /** The fields that follow the proof. */
  function AfterProof(rest: string): seq<string> {
    if rest == "" then [] else Split(rest[1..], ',')
  }

  /** The fields of an accepted message: those of the signed text, the proof, and those after it. */
  lemma FieldsOfClientFinal(msg: string) returns (rest: string)
    requires ClientFinalOf(msg).Ok?
    ensures var m := ClientFinalOf(msg).value;
            && msg == m.withoutProof + ",p=" + m.proof + rest && (rest == "" || rest[0] == ',')
            && Split(msg, ',') == Split(m.withoutProof, ',') + (["p=" + m.proof] + AfterProof(rest))
  {
    rest := ClientFinalIsConsistent(msg);
    hide ClientFinalOf, Split, Find;
    var m := ClientFinalOf(msg).value;
    var tail := "p=" + m.proof + rest;
    assert msg == m.withoutProof + [','] + tail;
    SplitOfAppend(m.withoutProof, tail, ',');
    SplitOfProof(m.proof, rest);
  }

  lemma SplitOfProof(proof: string, rest: string)
    requires ',' !in proof && (rest == "" || rest[0] == ',')
    ensures Split("p=" + proof + rest, ',') == ["p=" + proof] + AfterProof(rest)
  {
    var field := "p=" + proof;
    if rest == "" {
      IndexOfUnique(field, ',', |field|);
      assert field + rest == field;
      assert [field] + [] == [field];
    } else {
      hide Split;
      SplitOfPiece(field, rest[1..], ',');
      assert field + [','] + rest[1..] == field + rest;
    }
  }

  /** The checked channel binding and nonce are those of the signed text exactly when no field after
      the proof replaces them; in particular if nothing follows the proof. */
  lemma CheckedFieldsAreSignedIff(msg: string) returns (rest: string)
    requires ClientFinalOf(msg).Ok?
    ensures var m := ClientFinalOf(msg).value;
            var signed, after := Split(m.withoutProof, ','), AfterProof(rest);
            && msg == m.withoutProof + ",p=" + m.proof + rest
            && (Field(signed, "c=") == Some(m.channelBinding)
                <==> Field(after, "c=").None? || Field(after, "c=") == Field(signed, "c="))
            && (Field(signed, "r=") == Some(m.nonce)
                <==> Field(after, "r=").None? || Field(after, "r=") == Field(signed, "r="))
            && (rest == "" ==> Field(signed, "c=") == Some(m.channelBinding) && Field(signed, "r=") == Some(m.nonce))
  {
    rest := FieldsOfClientFinal(msg);
    var m := ClientFinalOf(msg).value;
    var signed, after := Split(m.withoutProof, ','), AfterProof(rest);
    assert Field(Split(msg, ','), "c=") == Some(m.channelBinding) && Field(Split(msg, ','), "r=") == Some(m.nonce);
    hide ClientFinalOf, Split, AfterProof;
    SkipProof(signed, m.proof, after, 'c');
    SkipProof(signed, m.proof, after, 'r');
    NoFieldsAfter(rest);
  }

  lemma NoFieldsAfter(rest: string)
    ensures rest == "" ==> forall key :: Field(AfterProof(rest), key).None?
  {
  }

  lemma SkipProof(signed: seq<string>, proof: string, after: seq<string>, letter: char)
    requires letter != 'p'
    ensures var key := [letter, '='];
            Field(signed + (["p=" + proof] + after), key)
            == if Field(after, key).Some? then Field(after, key) else Field(signed, key)
  {
    var key := [letter, '='];
    FieldOfAppend(signed, ["p=" + proof] + after, key);
    FieldOfAppend(["p=" + proof], after, key);
    assert ("p=" + proof)[0] == 'p';
    DifferentKeys("p=" + proof, 'p', letter);
    assert ["p=" + proof][..0] == [];
  }

  /** A message whose proof signs neither the binding nor the nonce that are checked. */
  lemma UnsignedFieldsAreAccepted(proof: string, nonce: string)
    requires ',' !in proof && ',' !in nonce
    ensures ClientFinalOf("x,p=" + proof + ",c=biws,r=" + nonce) == Ok(ClientFinal("biws", nonce, proof, "x"))
  {
    hide *;
    var msg, rest := "x,p=" + proof + ",c=biws,r=" + nonce, ",c=biws,r=" + nonce;
    UnsignedText(proof, nonce);
    UnsignedParts(proof, nonce, rest);
    SplitOfAppend("x", "p=" + proof + rest, ',');
    assert ["x"] + ["p=" + proof, "c=" + "biws", "r=" + nonce] == ["x", "p=" + proof, "c=" + "biws", "r=" + nonce];
    ProofBeforeFields(proof, nonce);
    FieldsOfFour("biws", nonce, proof);
    ClientFinalFrom(msg, 1, "biws", nonce, proof);
  }

  lemma UnsignedText(proof: string, nonce: string)
    ensures var msg := "x,p=" + proof + ",c=biws,r=" + nonce;
            msg == "x" + [','] + ("p=" + proof + (",c=biws,r=" + nonce)) && msg[..1] == "x"
    ensures Split("x", ',') == ["x"]
  {
    IndexOfUnique("x", ',', 1);
  }

  lemma UnsignedParts(proof: string, nonce: string, rest: string)
    requires ',' !in proof && ',' !in nonce && rest == ",c=biws,r=" + nonce
    ensures Split("p=" + proof + rest, ',') == ["p=" + proof, "c=" + "biws", "r=" + nonce]
  {
    var c, r := "c=" + "biws", "r=" + nonce;
    assert c == "c=biws" && rest[1..] == c + [','] + r;
    SplitOfProof(proof, rest);
    hide Split;
    TwoFields(c, r);
    assert ["p=" + proof] + [c, r] == ["p=" + proof, c, r];
  }

  lemma ClientFinalFrom(msg: string, cut: nat, c: string, r: string, p: string)
    requires FindLast(msg, ",p=") == Some(cut)
    requires var parts := Split(msg, ',');
             Field(parts, "c=") == Some(c) && Field(parts, "r=") == Some(r) && Field(parts, "p=") == Some(p)
    ensures cut <= |msg| && ClientFinalOf(msg) == Ok(ClientFinal(c, r, p, msg[..cut]))
  {
    hide Split, Field;
  }

  lemma TwoFields(c: string, r: string)
    requires ',' !in c && ',' !in r
    ensures Split(c + [','] + r, ',') == [c, r]
  {
    assert [c, r][1..] == [r];
    assert Join([c, r], ',') == c + [','] + r;
    SplitOfJoin([c, r], ',');
  }

  lemma ProofBeforeFields(proof: string, nonce: string)
    requires ',' !in proof && ',' !in nonce
    ensures FindLast("x,p=" + proof + ",c=biws,r=" + nonce, ",p=") == Some(1)
  {
    var msg, end := "x,p=" + proof + ",c=biws,r=" + nonce, 4 + |proof|;
    assert msg[1..4] == ",p=" && OccursAt(msg, ",p=", 1);
    var k := FindLast(msg, ",p=").value;
    assert msg[k] == msg[k..k + 3][0] && msg[k + 1] == msg[k..k + 3][1];
    assert forall i :: 4 <= i < end ==> msg[i] == proof[i - 4];
    assert msg[end..] == ",c=biws,r=" + nonce;
    assert forall i :: 0 <= i < |msg| - end ==> msg[end + i] == (",c=biws,r=" + nonce)[i];
    assert forall i :: end + 10 <= i < |msg| ==> msg[i] == nonce[i - end - 10];
  }

  lemma FieldsOfFour(c: string, r: string, p: string)
    ensures var parts := ["x", "p=" + p, "c=" + c, "r=" + r];
            Field(parts, "c=") == Some(c) && Field(parts, "r=") == Some(r) && Field(parts, "p=") == Some(p)
  {
    var parts := ["x", "p=" + p, "c=" + c, "r=" + r];
    FieldOfSnoc(parts, 1, "p=");
    FieldOfSnoc(parts, 2, "p=");
    FieldOfSnoc(parts, 3, "p=");
    FieldOfSnoc(parts, 2, "c=");
    FieldOfSnoc(parts, 3, "c=");
    FieldOfSnoc(parts, 3, "r=");
    DifferentKeys(parts[2], 'c', 'p');
    DifferentKeys(parts[3], 'r', 'p');
    DifferentKeys(parts[3], 'r', 'c');
    assert parts[..4] == parts;
  }

  // ---- Printers, and the parsers that invert them -------------------------------------

  function PrintClientFirst(username: string, nonce: string): string {
    "n,,n=" + username + ",r=" + nonce
  }

  function PrintWithoutProof(nonce: string): string { "c=biws,r=" + nonce }

  function PrintClientFinal(nonce: string, proof: string): string {
    PrintWithoutProof(nonce) + ",p=" + proof
  }

  lemma ClientFirstRoundTrip(username: string, nonce: string)
    requires ',' !in username && ',' !in nonce
    ensures ClientFirstOf(PrintClientFirst(username, nonce))
            == Ok(ClientFirst(username, nonce, "n=" + username + ",r=" + nonce))
  {
    var bare := "n=" + username + ",r=" + nonce;
    assert PrintClientFirst(username, nonce) == "n,," + bare;
    var parts := ["n=" + username, "r=" + nonce];
    assert Join(parts, ',') == bare by {
      assert parts[1..] == ["r=" + nonce];
      assert "n=" + username + [','] + ("r=" + nonce) == bare;
    }
    SplitOfJoin(parts, ',');
    FieldOfSnoc(parts, 0, "n=");
    FieldOfSnoc(parts, 1, "n=");
    FieldOfSnoc(parts, 1, "r=");
    assert parts[..2] == parts;
  }

  lemma FieldsOfThree(c: string, r: string, p: string)
    ensures var parts := ["c=" + c, "r=" + r, "p=" + p];
            Field(parts, "c=") == Some(c) && Field(parts, "r=") == Some(r) && Field(parts, "p=") == Some(p)
  {
    var parts := ["c=" + c, "r=" + r, "p=" + p];
    FieldOfSnoc(parts, 0, "c=");
    FieldOfSnoc(parts, 1, "c=");
    FieldOfSnoc(parts, 2, "c=");
    FieldOfSnoc(parts, 1, "r=");
    FieldOfSnoc(parts, 2, "r=");
    FieldOfSnoc(parts, 2, "p=");
    DifferentKeys(parts[1], 'r', 'c');
    DifferentKeys(parts[2], 'p', 'c');
    DifferentKeys(parts[2], 'p', 'r');
    assert parts[..3] == parts;
  }

  lemma OnlyProofCut(before: string, proof: string)
    requires ',' !in proof
    ensures FindLast(before + ",p=" + proof, ",p=") == Some(|before|)
  {
    var msg := before + ",p=" + proof;
    assert msg[|before|..|before| + 3] == ",p=";
    assert OccursAt(msg, ",p=", |before|);
    forall i | |before| < i < |msg| ensures msg[i] != ',' {
      assert msg[i] == ("p=" + proof)[i - |before| - 1];
    }
    var k := FindLast(msg, ",p=").value;
    assert msg[k] == msg[k..k + 3][0] == ',';
  }

  lemma ClientFinalRoundTrip(nonce: string, proof: string)
    requires ',' !in nonce && ',' !in proof
    ensures ClientFinalOf(PrintClientFinal(nonce, proof))
            == Ok(ClientFinal("biws", nonce, proof, PrintWithoutProof(nonce)))
  {
    var before, msg := PrintWithoutProof(nonce), PrintClientFinal(nonce, proof);
    var c, r, p := "c=biws", "r=" + nonce, "p=" + proof;
    SplitOfThree(c, r, p, ',');
    hide Split, Field, FindLast;
    assert c + [','] + (r + [','] + p) == msg;
    assert c == "c=" + "biws";
    FieldsOfThree("biws", nonce, proof);
    OnlyProofCut(before, proof);
    assert msg[..|before|] == before;
  }

  /** The two credentials of a PLAIN response, decoded as UTF-8. */
  function PlainOf(response: seq<byte>, decode: seq<byte> -> Option<string>): Option<(string, string)> {
    var parts := Split(response, 0);
    if |parts| != 3 || decode(parts[1]).None? || decode(parts[2]).None? then None
    else Some((decode(parts[1]).value, decode(parts[2]).value))
  }

  ghost predicate Pieces(response: seq<byte>, a: seq<byte>, u: seq<byte>, p: seq<byte>) {
    response == a + [0] + (u + [0] + p) && 0 !in a && 0 !in u && 0 !in p
  }

  lemma PiecesAreSplit(response: seq<byte>, a: seq<byte>, u: seq<byte>, p: seq<byte>)
    ensures Pieces(response, a, u, p) <==> Split(response, 0) == [a, u, p]
  {
    var parts := Split(response, 0);
    SplitOfThree(a, u, p, 0);
    if parts == [a, u, p] {
      JoinOfSplit(response, 0);
      assert parts[0] == a && parts[1] == u && parts[2] == p;
    }
  }

  /** A PLAIN response is accepted exactly when it is three NUL-free pieces joined by NULs of which
      the last two decode; those are then the username and the password. */
  lemma PlainIsThreePieces(response: seq<byte>, decode: seq<byte> -> Option<string>, username: string, password: string)
    ensures PlainOf(response, decode) == Some((username, password))
       <==> exists a, u, p :: Pieces(response, a, u, p) && decode(u) == Some(username) && decode(p) == Some(password)
  {
    hide Split, Pieces;
    var parts := Split(response, 0);
    if |parts| == 3 {
      assert parts == [parts[0], parts[1], parts[2]];
      PiecesAreSplit(response, parts[0], parts[1], parts[2]);
    }
    forall a, u, p | Pieces(response, a, u, p) ensures parts == [a, u, p] {
      PiecesAreSplit(response, a, u, p);
    }
  }
}
