/** What a login with EC-SRP depends on: the salt it is sent and the key in it (the two cases of
    handshake in src/internal/mactelnet/session.go, and docrypto in src/internal/mactelnet/mtwei.go). */
module LoginKeys {
  import opened Uint32
  import opened Wrappers
  import opened Limits
  import opened Curve
  import opened EcSrp
  import opened Tangle
  import opened Handshake
  import Auth

  const MD5_RESPONSE_LEN := 17
  const ECSRP_RESPONSE_LEN := 32

  // The client's side of the exchange: its private scalar, the validator a salt stands for, the hash
  // of the two keys, and where the search for a salt's validator point ends.
  datatype Client = Client(priv: nat, validator: seq<byte> -> nat, h: seq<byte> -> nat, end: seq<byte> -> int)

  /** A 49-byte salt is a server key and 16 bytes of salt proper. */
  function KeyOf(body: seq<byte>): (key: seq<byte>)
    requires |body| == ECSRP_SALT_LEN
    ensures |key| == PUBKEY_LEN
  {
    body[..PUBKEY_LEN]
  }

  function ValidatorOf(client: Client, body: seq<byte>): nat
    requires |body| == ECSRP_SALT_LEN
  {
    client.validator(body[PUBKEY_LEN..])
  }

  function EndOf(client: Client, body: seq<byte>): int
    requires |body| == ECSRP_SALT_LEN
  {
    client.end(body[PUBKEY_LEN..])
  }

  function Reached(s: Params, client: Client, body: seq<byte>): Outcome<int>
    requires s.c.p > 1 && s.n > 0 && |body| == ECSRP_SALT_LEN
  {
    var key := KeyOf(body);
    Agreement(s, client.priv, key, ValidatorOf(client, body), client.h(key), EndOf(client, body))
  }

  /** The account responds as handshake does: to a 16-byte salt with 17 bytes, and to a 49-byte salt with
      32 bytes, if docrypto comes to a result. */
  ghost predicate RespondsAs(a: Account, s: Params, client: Client)
    requires s.c.p > 1 && s.n > 0
  {
    forall body {:trigger a.respond(body)} ::
      && (|body| == MD5_SALT_LEN ==> Responds(a.respond(body), MD5_RESPONSE_LEN))
      && (|body| == ECSRP_SALT_LEN && SearchEnds(s, ValidatorOf(client, body), EndOf(client, body)) ==>
            if Reached(s, client, body).Ok? then Responds(a.respond(body), ECSRP_RESPONSE_LEN)
            else a.respond(body).None?)
  }

  predicate Responds(response: Option<seq<byte>>, n: nat) {
    response.Some? && |response.value| == n
  }

  ghost predicate LoginCanSucceed(a: Account, body: seq<byte>) {
    exists run, t :: Exec(Init(a), run) == Some(t) && t.terminalMode && Salted(t, body)
  }

  lemma Parts(client: Client, key: seq<byte>, salt: seq<byte>)
    requires |key| == 33 && |salt| == 16
    ensures var body := key + salt;
            |body| == 49 && KeyOf(body) == key
            && ValidatorOf(client, body) == client.validator(salt) && EndOf(client, body) == client.end(salt)
  {
    assert (key + salt)[..PUBKEY_LEN] == key && (key + salt)[PUBKEY_LEN..] == salt;
  }

  lemma PacketsFit(a: Account, response: seq<byte>)
    requires |a.clientPub| == PUBKEY_LEN
    ensures |InitPacket(a)| <= MAX_PAYLOAD <==> |a.username| <= 1426
    ensures |FinishPacket(a, response)| <= MAX_PAYLOAD <==> |response| + |a.username| + |a.termType| <= 1429
  {
    Auth.PacketLengths(a.username, a.clientPub, response, a.termType, a.cols, a.rows);
  }

  /** When a login can succeed whose first PASSSALT carries a server key and a salt: exactly if the curve
      has a point with the key's x-coordinate, the point of the salt's validator and the final multiple
      are finite, and name and terminal type are together at most 1397 bytes long. */
  lemma KeyDecidesLogin(a: Account, s: Params, client: Client, key: seq<byte>, salt: seq<byte>)
    requires Sound(s) && RespondsAs(a, s, client) && |key| == 33 && |salt| == 16 && |a.clientPub| == PUBKEY_LEN
    requires SearchEnds(s, client.validator(salt), client.end(salt))
    ensures LoginCanSucceed(a, key + salt)
       <==> && HasPoint(s.c, KeyX(s, key))
            && ValidatorPoint(s, client.validator(salt)).Affine?
            && FinalPoint(s, client.priv, key, client.validator(salt), client.h(key), client.end(salt)).Affine?
            && |a.username| + |a.termType| <= 1397
  {
    var body := key + salt;
    var response := a.respond(body);
    Parts(client, key, salt);
    LoginCanSucceedIff(a, body);
    DecompressIff(s, key);
    if response.Some? {
      PacketsFit(a, response.value);
    }
  }

  /** With a 16-byte salt a login can always succeed, if name and terminal type are not too long. */
  lemma PlainSaltDecidesLogin(a: Account, s: Params, client: Client, body: seq<byte>)
    requires Sound(s) && RespondsAs(a, s, client) && |body| == 16 && |a.clientPub| == PUBKEY_LEN
    ensures LoginCanSucceed(a, body) <==> |a.username| + |a.termType| <= 1412
  {
    var response := a.respond(body);
    LoginCanSucceedIff(a, body);
    PacketsFit(a, response.value);
  }
}
