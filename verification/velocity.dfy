/** Velocity "modern" player-info forwarding: the login challenge sent to the
    proxy, the HMAC integrity check of its answer, and the staged decoder that
    turns the verified payload into a game profile and the client's socket address.

    HMAC-SHA256, the UTF-8 encoding of the configured secret, the IP-literal
    parser and the byte-buffer readers are opaque: they arrive as the function
    values of `Primitives`. */
module Velocity {
  import opened Wrappers
  import opened Numeric
  import opened ByteBuffer

  const MaxSupportedForwardingVersion: U8 := 4
  const PlayerInfoChannel: string := "velocity:player_info"
  /** Length of an HMAC-SHA256 tag, and of the signature prefix of a forwarded payload. */
  const SignatureLength: nat := 32

  type Mac = s: seq<Byte> | |s| == SignatureLength
    witness [0, 0, 0, 0, 0, 0, 0, 0, 0, 0, 0, 0, 0, 0, 0, 0, 0, 0, 0, 0, 0, 0, 0, 0, 0, 0, 0, 0, 0, 0, 0, 0]

  /** The error taxonomy, with the source's spelling `FailedParseAddres`. */
  datatype VelocityError =
    | NoData
    | FailedVerifyIntegrity
    | FailedReadForwardVersion
    | UnsupportedForwardVersion(actual: U8, max: U8)
    | FailedReadAddress
    | FailedParseAddres
    | FailedReadProfileName
    | FailedReadProfileUUID
    | FailedReadProfileProperties

  datatype Property = Property(name: string, value: string, signature: Option<string>)

  /** Only the absence of profile actions matters here; they are filled in elsewhere. */
  datatype ProfileAction = ForcedNameChange | UsingBannedSkin

  datatype GameProfile = GameProfile(
    id: Uuid,
    name: string,
    properties: seq<Property>,
    profileActions: Option<seq<ProfileAction>>)

  type Ipv4Octets = s: seq<Byte> | |s| == 4 witness [0, 0, 0, 0]
  type Ipv6Segments = s: seq<U16> | |s| == 8 witness [0, 0, 0, 0, 0, 0, 0, 0]

  datatype IpAddr = V4(octets: Ipv4Octets) | V6(segments: Ipv6Segments)
  datatype SocketAddr = SocketAddr(ip: IpAddr, port: U16)

  datatype VelocityConfig = VelocityConfig(secret: string)

  /** Outbound login plugin request (`CLoginPluginRequest`). */
  datatype LoginPluginRequest = LoginPluginRequest(messageId: I32, channel: string, data: seq<Byte>)
  /** Inbound login plugin response (`SLoginPluginResponse`); `data` is absent when the proxy sent nothing. */
  datatype LoginPluginResponse = LoginPluginResponse(messageId: I32, data: Option<seq<Byte>>)

  datatype Primitives = Primitives(
    wire: Wire,
    utf8: string -> seq<Byte>,
    hmacSha256: (seq<Byte>, seq<Byte>) -> Mac,
    parseIp: string -> Option<IpAddr>)

  /** The challenge of `velocity_login`. The transaction id is random in the source
      and is never matched against the reply; here it is a parameter. */
  function VelocityLogin(messageId: I32): (request: LoginPluginRequest)
    ensures request.channel == "velocity:player_info"
    ensures |request.data| == 1 && request.data[0] == MaxSupportedForwardingVersion == 4
    ensures request.messageId == messageId
  {
    LoginPluginRequest(messageId, PlayerInfoChannel, [MaxSupportedForwardingVersion])
  }

  /** A proxy that answers the challenge with the version it was offered passes the version gate. */
  lemma ChallengeVersionPassesGate(messageId: I32)
    ensures AsU8(VelocityLogin(messageId).data[0]) <= MaxSupportedForwardingVersion
  {
  }

  /** `check_integrity`: the signature is genuine when it is the HMAC-SHA256 of the
      message keyed with the secret's UTF-8 bytes. */
  function CheckIntegrity(prims: Primitives, signature: seq<Byte>, message: seq<Byte>, secret: string): (ok: bool)
    ensures ok <==> signature == prims.hmacSha256(prims.utf8(secret), message)
    ensures ok ==> |signature| == SignatureLength
  {
    prims.hmacSha256(prims.utf8(secret), message) == signature
  }

  /** A signature produced with the same secret over the same message always verifies. */
  lemma GenuineSignatureVerifies(prims: Primitives, message: seq<Byte>, secret: string)
    ensures CheckIntegrity(prims, prims.hmacSha256(prims.utf8(secret), message), message, secret)
  {
  }

  /** Any other byte string is rejected, whatever it differs in. */
  lemma AlteredSignatureRejected(prims: Primitives, signature: seq<Byte>, message: seq<Byte>, secret: string)
    requires signature != prims.hmacSha256(prims.utf8(secret), message)
    ensures !CheckIntegrity(prims, signature, message, secret)
  {
  }

  /** The closure passed to `get_list` in `read_game_profile`: name, value, optional signature. */
  function ReadProperty(w: Wire, s: seq<Byte>): (r: Option<(Property, seq<Byte>)>)
    ensures r.Some? <==>
      && w.readString(s).Some?
      && w.readString(w.readString(s).value.1).Some?
      && GetOption(w, w.readString, w.readString(w.readString(s).value.1).value.1).Some?
    ensures r.Some? ==>
      var (name, s1) := w.readString(s).value;
      var (value, s2) := w.readString(s1).value;
      var (signature, s3) := GetOption(w, w.readString, s2).value;
      r.value == (Property(name, value, signature), s3)
  {
    match w.readString(s)
    case None => None
    case Some((name, s1)) =>
      match w.readString(s1)
      case None => None
      case Some((value, s2)) =>
        match GetOption(w, w.readString, s2)
        case None => None
        case Some((signature, s3)) => Some((Property(name, value, signature), s3))
  }

  function PropertyReader(w: Wire): Reader<Property> {
    s => ReadProperty(w, s)
  }

  function ReadProperties(w: Wire, s: seq<Byte>): Option<(seq<Property>, seq<Byte>)> {
    GetList(w, PropertyReader(w), s)
  }

  /** `read_game_profile`: UUID, name, property list; each failure has its own error,
      and a failure inside any property is a property-list failure. */
  function ReadGameProfile(w: Wire, s: seq<Byte>): (r: Result<GameProfile, VelocityError>)
    ensures r == Failure(FailedReadProfileUUID) <==> w.readUuid(s).None?
    ensures r == Failure(FailedReadProfileName) <==>
      w.readUuid(s).Some? && w.readString(w.readUuid(s).value.1).None?
    ensures r == Failure(FailedReadProfileProperties) <==>
      && w.readUuid(s).Some?
      && w.readString(w.readUuid(s).value.1).Some?
      && ReadProperties(w, w.readString(w.readUuid(s).value.1).value.1).None?
    ensures r.Failure? ==> r.error in {FailedReadProfileUUID, FailedReadProfileName, FailedReadProfileProperties}
    ensures r.Success? ==>
      && w.readUuid(s).Some?
      && var (id, s1) := w.readUuid(s).value;
      && w.readString(s1).Some?
      && var (name, s2) := w.readString(s1).value;
      && ReadProperties(w, s2).Some?
      && r.value == GameProfile(id, name, ReadProperties(w, s2).value.0, None)
  {
    match w.readUuid(s)
    case None => Failure(FailedReadProfileUUID)
    case Some((id, s1)) =>
      match w.readString(s1)
      case None => Failure(FailedReadProfileName)
      case Some((name, s2)) =>
        match ReadProperties(w, s2)
        case None => Failure(FailedReadProfileProperties)
        case Some((properties, _)) => Success(GameProfile(id, name, properties, None))
  }

  /** A property that fails to read anywhere in the list, in its name, value or signature,
      fails the profile with `FailedReadProfileProperties`. */
  lemma PropertyFailureFailsProfile(w: Wire, s: seq<Byte>, k: nat)
    requires w.readUuid(s).Some?
    requires w.readString(w.readUuid(s).value.1).Some?
    requires var afterName := w.readString(w.readUuid(s).value.1).value.1;
      && w.readCount(afterName).Some?
      && k < w.readCount(afterName).value.0
      && var elements := w.readCount(afterName).value.1;
      && Cursor(PropertyReader(w), k, elements).Some?
      && ReadProperty(w, Cursor(PropertyReader(w), k, elements).value).None?
    ensures ReadGameProfile(w, s) == Failure(FailedReadProfileProperties)
  {
    var afterName := w.readString(w.readUuid(s).value.1).value.1;
    GetListFailsAtElement(w, PropertyReader(w), afterName, k);
  }

  /** The forwarding version read, truncated to eight bits, is at most the maximum. */
  predicate VersionAccepted(w: Wire, message: seq<Byte>) {
    w.readVarInt(message).Some? && AsU8(w.readVarInt(message).value.0) <= MaxSupportedForwardingVersion
  }

  /** The address literal, read right after an accepted version. */
  function AddressRead(w: Wire, message: seq<Byte>): Option<(string, seq<Byte>)>
    requires VersionAccepted(w, message)
  {
    w.readString(w.readVarInt(message).value.1)
  }

  /** Everything after the signature check: version gate, address, profile. */
  function DecodeVerified(prims: Primitives, port: U16, message: seq<Byte>): (r: Result<(GameProfile, SocketAddr), VelocityError>)
    ensures r.Failure? ==> r.error !in {NoData, FailedVerifyIntegrity}
    // stage 1 and 2: the version read and the gate on its low eight bits
    ensures r == Failure(FailedReadForwardVersion) <==> prims.wire.readVarInt(message).None?
    ensures (r.Failure? && r.error.UnsupportedForwardVersion?) <==>
      prims.wire.readVarInt(message).Some? && !VersionAccepted(prims.wire, message)
    ensures r.Failure? && r.error.UnsupportedForwardVersion? ==>
      r.error == UnsupportedForwardVersion(AsU8(prims.wire.readVarInt(message).value.0), MaxSupportedForwardingVersion)
    // stage 3 and 4: the address, read then parsed, only once the gate passed
    ensures r == Failure(FailedReadAddress) <==>
      VersionAccepted(prims.wire, message) && AddressRead(prims.wire, message).None?
    ensures r == Failure(FailedParseAddres) <==>
      && VersionAccepted(prims.wire, message)
      && AddressRead(prims.wire, message).Some?
      && prims.parseIp(AddressRead(prims.wire, message).value.0).None?
    // stages 5 to 7: the profile, only once the address parsed; the port is the caller's
    ensures r.Success? || r.error in {FailedReadProfileUUID, FailedReadProfileName, FailedReadProfileProperties} <==>
      && VersionAccepted(prims.wire, message)
      && AddressRead(prims.wire, message).Some?
      && prims.parseIp(AddressRead(prims.wire, message).value.0).Some?
    ensures r.Success? || r.error in {FailedReadProfileUUID, FailedReadProfileName, FailedReadProfileProperties} ==>
      var (address, rest) := AddressRead(prims.wire, message).value;
      var profile := ReadGameProfile(prims.wire, rest);
      && (r.Success? <==> profile.Success?)
      && (r.Failure? ==> r.error == profile.error)
      && (r.Success? ==> r.value == (profile.value, SocketAddr(prims.parseIp(address).value, port)))
  {
    match prims.wire.readVarInt(message)
    case None => Failure(FailedReadForwardVersion)
    case Some((raw, rest)) =>
      var version := AsU8(raw);
      if version > MaxSupportedForwardingVersion then
        Failure(UnsupportedForwardVersion(version, MaxSupportedForwardingVersion))
      else
        match prims.wire.readString(rest)
        case None => Failure(FailedReadAddress)
        case Some((address, rest')) =>
          match prims.parseIp(address)
          case None => Failure(FailedParseAddres)
          case Some(ip) =>
            var profile :- ReadGameProfile(prims.wire, rest');
            Success((profile, SocketAddr(ip, port)))
  }

  /** `receive_velocity_plugin_response`. The split at 32 bytes panics in the source on a
      shorter payload, so a payload of at least 32 bytes is the caller's obligation. */
  /** Each stage succeeding in turn is exactly what makes decoding succeed, with the
      profile read and the parsed IP at the given port. */
  lemma DecodeVerifiedSucceeds(
    prims: Primitives, port: U16, message: seq<Byte>, address: string, rest: seq<Byte>, ip: IpAddr, profile: GameProfile)
    requires VersionAccepted(prims.wire, message)
    requires AddressRead(prims.wire, message) == Some((address, rest))
    requires prims.parseIp(address) == Some(ip)
    requires ReadGameProfile(prims.wire, rest) == Success(profile)
    ensures DecodeVerified(prims, port, message) == Success((profile, SocketAddr(ip, port)))
  {
  }

  function ReceiveVelocityPluginResponse(prims: Primitives, port: U16, config: VelocityConfig, response: LoginPluginResponse)
    : (r: Result<(GameProfile, SocketAddr), VelocityError>)
    requires response.data.Some? ==> |response.data.value| >= SignatureLength
    ensures r == Failure(NoData) <==> response.data.None?
    ensures response.data.Some? ==>
      var (signature, message) := (response.data.value[..SignatureLength], response.data.value[SignatureLength..]);
      && (r == Failure(FailedVerifyIntegrity) <==> !CheckIntegrity(prims, signature, message, config.secret))
      && (CheckIntegrity(prims, signature, message, config.secret) ==> r == DecodeVerified(prims, port, message))
    ensures r.Success? ==>
      && response.data.Some?
      && response.data.value[..SignatureLength] == prims.hmacSha256(prims.utf8(config.secret), response.data.value[SignatureLength..])
      && r.value.1.port == port
      && r.value.0.profileActions.None?
  {
    match response.data
    case None => Failure(NoData)
    case Some(data) =>
      var (signature, message) := (data[..SignatureLength], data[SignatureLength..]);
      if !CheckIntegrity(prims, signature, message, config.secret) then Failure(FailedVerifyIntegrity)
      else DecodeVerified(prims, port, message)
  }
}
