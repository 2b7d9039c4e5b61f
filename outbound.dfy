/**
 * `create_vless_outbound`: the outbound route document for one parsed link.
 * The stream security is a sum type: Reality settings exactly when the
 * link's security is `reality`, TLS settings otherwise.
 */
module Outbound {
  import opened Wrappers
  import opened VlessParser

  datatype User = User(id: Option<string>, flow: string)

  datatype Server = Server(address: Option<string>, port: nat, users: seq<User>)

  /** `realitySettings`. */
  datatype Reality = Reality(show: bool, dest: string, xver: nat, serverName: string, publicKey: string, shortId: string, spiderX: string)

  /** `tlsSettings`; the server name is JSON null when both the SNI and the address are missing. */
  datatype Tls = Tls(serverName: Option<string>, allowInsecure: bool)

  datatype SecuritySettings = RealitySettings(reality: Reality) | TlsSettings(tls: Tls)

  /** `streamSettings`: the network, the security label and its settings object. */
  datatype StreamSettings = StreamSettings(network: string, security: string, settings: SecuritySettings)

  /** `settings`: the `vnext` server list of a proxy route, or `{}` for the direct route. */
  datatype Settings = Vnext(servers: seq<Server>) | NoSettings

  datatype Outbound = Outbound(tag: string, protocol: string, settings: Settings, streamSettings: Option<StreamSettings>)

  /** The fallback route `{"tag": "direct", "protocol": "freedom", "settings": {}}`. */
  const Direct := Outbound("direct", "freedom", NoSettings, None)

  const RealityFallbackServerName := "www.microsoft.com"

  function CreateVlessOutbound(link: VlessLink, tag: string): (r: Outbound)
    ensures r.tag == tag && r.protocol == "vless"
    ensures r.settings == Vnext([Server(link.address, link.port, [User(link.uuid, link.flow)])])
    ensures r.streamSettings.Some?
    ensures r.streamSettings.value.network == link.network
    ensures r.streamSettings.value.security == link.security
    ensures r.streamSettings.value.settings.RealitySettings? <==> link.security == "reality"
    ensures r.streamSettings.value.settings.RealitySettings? ==>
      var reality := r.streamSettings.value.settings.reality;
      && reality.dest == reality.serverName + ":443"
      && reality.serverName == (if link.sni != "" then link.sni else RealityFallbackServerName)
      && reality.publicKey == link.pbk && reality.shortId == link.sid
      && !reality.show && reality.xver == 0 && reality.spiderX == "/"
    ensures r.streamSettings.value.settings.TlsSettings? ==>
      var tls := r.streamSettings.value.settings.tls;
      && tls.serverName == (if link.sni != "" then Some(link.sni) else link.address)
      && !tls.allowInsecure
  {
    var server := Server(link.address, link.port, [User(link.uuid, link.flow)]);
    if link.security == "reality" then
      Outbound(tag, "vless", Vnext([server]), Some(StreamSettings(link.network, "reality",
        RealitySettings(Reality(
          show := false,
          dest := if link.sni != "" then link.sni + ":443" else RealityFallbackServerName + ":443",
          xver := 0,
          serverName := if link.sni != "" then link.sni else RealityFallbackServerName,
          publicKey := link.pbk,
          shortId := if link.sid != "" then link.sid else "",
          spiderX := "/")))))
    else
      Outbound(tag, "vless", Vnext([server]), Some(StreamSettings(link.network, link.security,
        TlsSettings(Tls(serverName := if link.sni != "" then Some(link.sni) else link.address, allowInsecure := false)))))
  }
}
