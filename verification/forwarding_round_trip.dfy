/** The proxy's side of modern forwarding, as the inverse of the decoder: what
    Velocity writes, and what the server recovers from it. */
module ForwardingRoundTrip {
  import opened Wrappers
  import opened Numeric
  import opened ByteBuffer
  import opened Velocity

  function EncodeProperty(w: Wire, p: Property): seq<Byte> {
    w.writeString(p.name) + (w.writeString(p.value) + PutOption(w, w.writeString, p.signature))
  }

  function PropertyWriter(w: Wire): Writer<Property> {
    p => EncodeProperty(w, p)
  }

  /** Every string of the property is within the string reader's cap. */
  predicate PropertyFits(p: Property) {
    StringFits(p.name) && StringFits(p.value) && (p.signature.Some? ==> StringFits(p.signature.value))
  }

  /** The profile's name and properties are within the protocol's caps. */
  predicate ProfileFits(profile: GameProfile) {
    && StringFits(profile.name)
    && CountFits(|profile.properties|)
    && forall i :: 0 <= i < |profile.properties| ==> PropertyFits(profile.properties[i])
  }

  function EncodeGameProfile(w: Wire, profile: GameProfile): seq<Byte> {
    w.writeUuid(profile.id) + (w.writeString(profile.name) + PutList(w, PropertyWriter(w), profile.properties))
  }

  /** Version, address literal, profile: the layout following the signature. */
  function EncodeForwarded(w: Wire, version: I32, address: string, profile: GameProfile): seq<Byte> {
    w.writeVarInt(version) + (w.writeString(address) + EncodeGameProfile(w, profile))
  }

  /** The 32-byte HMAC of the message, followed by the message. */
  function Sign(prims: Primitives, secret: string, message: seq<Byte>): (data: seq<Byte>)
    ensures |data| >= SignatureLength
    ensures data[..SignatureLength] == prims.hmacSha256(prims.utf8(secret), message)
    ensures data[SignatureLength..] == message
  {
    prims.hmacSha256(prims.utf8(secret), message) + message
  }

  lemma ReadPropertyRoundTrip(w: Wire, p: Property, rest: seq<Byte>)
    requires StringLaw(w) && BoolLaw(w)
    requires PropertyFits(p)
    ensures ReadProperty(w, EncodeProperty(w, p) + rest) == Some((p, rest))
  {
    var s2 := PutOption(w, w.writeString, p.signature) + rest;
    var s1 := w.writeString(p.value) + s2;
    assert EncodeProperty(w, p) + rest == w.writeString(p.name) + s1;
    assert w.readString(w.writeString(p.name) + s1) == Some((p.name, s1));
    assert w.readString(w.writeString(p.value) + s2) == Some((p.value, s2));
    GetOptionRoundTrip(w, w.readString, w.writeString, StringFits, p.signature, rest);
  }

  lemma PropertyCodecInverts(w: Wire)
    requires StringLaw(w) && BoolLaw(w)
    ensures Inverts(PropertyReader(w), PropertyWriter(w), PropertyFits)
  {
    forall p, rest | PropertyFits(p) ensures PropertyReader(w)(PropertyWriter(w)(p) + rest) == Some((p, rest)) {
      ReadPropertyRoundTrip(w, p, rest);
    }
  }

  /** The profile read back has the encoded id, name and properties, in order, with
      each property's signature presence preserved, and no profile actions. */
  lemma ReadGameProfileRoundTrip(w: Wire, profile: GameProfile, rest: seq<Byte>)
    requires StringLaw(w) && UuidLaw(w) && BoolLaw(w) && CountLaw(w)
    requires ProfileFits(profile)
    requires profile.profileActions.None?
    ensures ReadGameProfile(w, EncodeGameProfile(w, profile) + rest) == Success(profile)
  {
    var s2 := PutList(w, PropertyWriter(w), profile.properties) + rest;
    var s1 := w.writeString(profile.name) + s2;
    assert EncodeGameProfile(w, profile) + rest == w.writeUuid(profile.id) + s1;
    assert w.readUuid(w.writeUuid(profile.id) + s1) == Some((profile.id, s1));
    assert w.readString(w.writeString(profile.name) + s2) == Some((profile.name, s2));
    PropertyCodecInverts(w);
    GetListRoundTrip(w, PropertyReader(w), PropertyWriter(w), PropertyFits, profile.properties, rest);
  }

  /** An accepted version followed by an address literal passes the gate and reads the
      address back, leaving the encoded profile and what follows it. */
  lemma HeaderReadsBack(w: Wire, version: I32, address: string, profile: GameProfile, trailing: seq<Byte>)
    requires VarIntLaw(w) && StringLaw(w)
    requires AsU8(version) <= MaxSupportedForwardingVersion
    requires StringFits(address)
    ensures VersionAccepted(w, EncodeForwarded(w, version, address, profile) + trailing)
    ensures AddressRead(w, EncodeForwarded(w, version, address, profile) + trailing)
      == Some((address, EncodeGameProfile(w, profile) + trailing))
  {
    var s2 := EncodeGameProfile(w, profile) + trailing;
    var s1 := w.writeString(address) + s2;
    assert EncodeForwarded(w, version, address, profile) + trailing == w.writeVarInt(version) + s1;
    assert w.readVarInt(w.writeVarInt(version) + s1) == Some((version, s1));
    assert w.readString(w.writeString(address) + s2) == Some((address, s2));
  }

  /** A verified payload with an accepted version and a parsable address decodes to
      exactly the encoded profile, at the parsed IP and the given port. */
  lemma DecodeVerifiedRoundTrip(
    prims: Primitives, port: U16, version: I32, address: string, ip: IpAddr, profile: GameProfile, trailing: seq<Byte>)
    requires Lawful(prims.wire)
    requires AsU8(version) <= MaxSupportedForwardingVersion
    requires prims.parseIp(address) == Some(ip)
    requires StringFits(address) && ProfileFits(profile)
    requires profile.profileActions.None?
    ensures
      DecodeVerified(prims, port, EncodeForwarded(prims.wire, version, address, profile) + trailing)
        == Success((profile, SocketAddr(ip, port)))
  {
    var message := EncodeForwarded(prims.wire, version, address, profile) + trailing;
    var s2 := EncodeGameProfile(prims.wire, profile) + trailing;
    HeaderReadsBack(prims.wire, version, address, profile, trailing);
    ReadGameProfileRoundTrip(prims.wire, profile, trailing);
    DecodeVerifiedSucceeds(prims, port, message, address, s2, ip, profile);
  }

  /** A correctly signed payload with an accepted version and a parsable address decodes
      to exactly the encoded profile, at the parsed IP and the server's own port.
      Bytes after the profile are ignored. */
  lemma ForwardingRoundTrip(
    prims: Primitives, port: U16, config: VelocityConfig, messageId: I32,
    version: I32, address: string, ip: IpAddr, profile: GameProfile, trailing: seq<Byte>)
    requires Lawful(prims.wire)
    requires AsU8(version) <= MaxSupportedForwardingVersion
    requires prims.parseIp(address) == Some(ip)
    requires StringFits(address) && ProfileFits(profile)
    requires profile.profileActions.None?
    ensures
      var message := EncodeForwarded(prims.wire, version, address, profile) + trailing;
      var response := LoginPluginResponse(messageId, Some(Sign(prims, config.secret, message)));
      ReceiveVelocityPluginResponse(prims, port, config, response) == Success((profile, SocketAddr(ip, port)))
  {
    var message := EncodeForwarded(prims.wire, version, address, profile) + trailing;
    var data := Sign(prims, config.secret, message);
    assert CheckIntegrity(prims, data[..SignatureLength], data[SignatureLength..], config.secret);
    DecodeVerifiedRoundTrip(prims, port, version, address, ip, profile, trailing);
  }

  /** A payload signed with any other key than the configured secret's is refused,
      whatever it contains. */
  lemma ForeignSignatureRejected(
    prims: Primitives, port: U16, config: VelocityConfig, messageId: I32, otherSecret: string, message: seq<Byte>)
    requires prims.hmacSha256(prims.utf8(otherSecret), message) != prims.hmacSha256(prims.utf8(config.secret), message)
    ensures
      var response := LoginPluginResponse(messageId, Some(Sign(prims, otherSecret, message)));
      ReceiveVelocityPluginResponse(prims, port, config, response) == Failure(FailedVerifyIntegrity)
  {
  }

  /** A failed integrity check ends decoding before any reader or the address parser is
      consulted: swapping them all for others changes nothing. */
  lemma IntegrityFailureIgnoresPayload(
    prims: Primitives, other: Primitives, port: U16, config: VelocityConfig, response: LoginPluginResponse)
    requires response.data.Some? && |response.data.value| >= SignatureLength
    requires other.utf8 == prims.utf8 && other.hmacSha256 == prims.hmacSha256
    requires !CheckIntegrity(prims, response.data.value[..SignatureLength], response.data.value[SignatureLength..], config.secret)
    ensures ReceiveVelocityPluginResponse(prims, port, config, response) == Failure(FailedVerifyIntegrity)
    ensures ReceiveVelocityPluginResponse(other, port, config, response) == Failure(FailedVerifyIntegrity)
  {
  }

  /** A version whose low eight bits exceed 4 is refused with both values, regardless of
      whether the rest of the payload is well formed. */
  lemma UnsupportedVersionRegardlessOfRest(
    prims: Primitives, port: U16, config: VelocityConfig, messageId: I32, version: I32, rest: seq<Byte>)
    requires VarIntLaw(prims.wire)
    requires AsU8(version) > MaxSupportedForwardingVersion
    ensures
      var response := LoginPluginResponse(messageId, Some(Sign(prims, config.secret, prims.wire.writeVarInt(version) + rest)));
      ReceiveVelocityPluginResponse(prims, port, config, response)
        == Failure(UnsupportedForwardVersion(AsU8(version), 4))
  {
  }

  lemma VersionFiveRejected(prims: Primitives, port: U16, config: VelocityConfig, messageId: I32, rest: seq<Byte>)
    requires VarIntLaw(prims.wire)
    ensures
      var response := LoginPluginResponse(messageId, Some(Sign(prims, config.secret, prims.wire.writeVarInt(5) + rest)));
      ReceiveVelocityPluginResponse(prims, port, config, response) == Failure(UnsupportedForwardVersion(5, 4))
  {
  }

  /** The `as u8` truncation makes a VarInt of 260 indistinguishable from 4: the gate
      passes and decoding continues exactly as for version 4. */
  lemma Version260DecodesAsVersion4(prims: Primitives, port: U16, config: VelocityConfig, messageId: I32, rest: seq<Byte>)
    requires VarIntLaw(prims.wire)
    ensures
      var wrapped := LoginPluginResponse(messageId, Some(Sign(prims, config.secret, prims.wire.writeVarInt(260) + rest)));
      var four := LoginPluginResponse(messageId, Some(Sign(prims, config.secret, prims.wire.writeVarInt(4) + rest)));
      && ReceiveVelocityPluginResponse(prims, port, config, wrapped) == ReceiveVelocityPluginResponse(prims, port, config, four)
      && ReceiveVelocityPluginResponse(prims, port, config, wrapped) != Failure(UnsupportedForwardVersion(4, 4))
  {
  }

  /** The scenario of a player "Alice" with no properties, forwarded from 127.0.0.1. */
  lemma AliceFromLoopback(
    prims: Primitives, port: U16, config: VelocityConfig, messageId: I32, id: Uuid)
    requires Lawful(prims.wire)
    requires prims.parseIp("127.0.0.1") == Some(V4([127, 0, 0, 1]))
    ensures
      var alice := GameProfile(id, "Alice", [], None);
      var message := EncodeForwarded(prims.wire, 4, "127.0.0.1", alice);
      var response := LoginPluginResponse(messageId, Some(Sign(prims, config.secret, message)));
      ReceiveVelocityPluginResponse(prims, port, config, response)
        == Success((alice, SocketAddr(V4([127, 0, 0, 1]), port)))
  {
    var alice := GameProfile(id, "Alice", [], None);
    var message := EncodeForwarded(prims.wire, 4, "127.0.0.1", alice);
    assert message + [] == message;
    assert StringFits("127.0.0.1") && ProfileFits(alice);
    ForwardingRoundTrip(prims, port, config, messageId, 4, "127.0.0.1", V4([127, 0, 0, 1]), alice, []);
  }
}
