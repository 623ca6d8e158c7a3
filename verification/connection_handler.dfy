/** `test/ConnectionHandler`: the comma-separated sign-on. A message
    `name,password,ip` registers a new account under its name in a table of
    its own, unless the name is taken; any other shape is refused. The reply
    is the text returned to the caller. */
module ConnectionHandler {
  import opened Base
  import opened Model
  import JavaText

  /** `usuariosConectados`: name to account. */
  type Connected = map<string, Account>

  const FieldSeparator: char := ','
  const FormatError: string := "Formato incorrecto. Usa: nombre,contrase" + "ña,ip"
  const WelcomePrefix: string := "Bienvenido al chat, "

  function NameInUse(name: string): string
  {
    "El nombre de usuario '" + name + "' ya está en uso. Intenta con otro."
  }

  function Welcome(name: string): string
  {
    WelcomePrefix + name + "!"
  }

  /** Every account is stored under its own name. */
  ghost predicate Keyed(connected: Connected)
  {
    forall n :: n in connected ==> connected[n].name == n
  }

  /** The fields of a sign-on message, split the way Java's
      `split(",")` does: trailing empty fields are dropped. */
  function Details(message: string): seq<string>
  {
    JavaText.Split(message, FieldSeparator)
  }

  /** `handleConnection`. `id` stands for the identity of the `User` object
      the call creates, and `resolved` for what `InetAddress.getByName` makes
      of the third field: the host text of the resolved address, or `None`
      when it throws `UnknownHostException`. The exception escapes before the
      table is touched. Otherwise the reply welcomes the caller exactly when
      the table grew, and it grows by exactly the first field's name; nothing
      already in the table is changed. */
  function HandleConnection(connected: Connected, message: string, id: nat, resolved: Option<string>)
    : (r: Result<(string, Connected)>)
    ensures var d := Details(message);
            r.Err? <==> |d| == 3 && d[0] !in connected && resolved.None?
    ensures r.Err? ==> r.fault == UnknownHost(Details(message)[2])
    ensures |Details(message)| != 3 ==> r == Ok((FormatError, connected))
    ensures var d := Details(message);
            |d| == 3 && d[0] in connected ==> r == Ok((NameInUse(d[0]), connected))
    ensures var d := Details(message);
            |d| == 3 && d[0] !in connected && resolved.Some? ==>
              r == Ok((Welcome(d[0]), connected[d[0] := Account(id, d[0], d[1], resolved.value)]))
    ensures r.Ok? ==> forall n :: n in connected ==> n in r.value.1 && r.value.1[n] == connected[n]
    ensures r.Ok? ==> (r.value.1 != connected <==> JavaText.StartsWith(r.value.0, WelcomePrefix))
    ensures r.Ok? && Keyed(connected) ==> Keyed(r.value.1)
  {
    var details := Details(message);
    if |details| == 3 then
      var name := details[0];
      if name in connected then
        assert NameInUse(name)[0] != WelcomePrefix[0];
        Ok((NameInUse(name), connected))
      else if resolved.None? then
        Err(UnknownHost(details[2]))
      else
        Ok((Welcome(name), connected[name := Account(id, name, details[1], resolved.value)]))
    else
      assert FormatError[0] != WelcomePrefix[0];
      Ok((FormatError, connected))
  }

  /** A message built from three comma-free fields, the last one non-empty,
      is parsed back into exactly those fields. */
  lemma DetailsRoundTrip(name: string, password: string, ip: string)
    requires FieldSeparator !in name && FieldSeparator !in password && FieldSeparator !in ip
    requires ip != ""
    ensures Details(JavaText.Join([name, password, ip], [FieldSeparator])) == [name, password, ip]
  {
    JavaText.FieldsJoin([name, password, ip], FieldSeparator);
  }

  /** A sign-on written as `name,password,ip` from comma-free fields, under
      a free name and with an address that resolves, registers exactly that
      account and welcomes it. */
  lemma SignOnRegisters(connected: Connected, name: string, password: string, ip: string, id: nat, host: string)
    requires FieldSeparator !in name && FieldSeparator !in password && FieldSeparator !in ip
    requires ip != "" && name !in connected
    ensures HandleConnection(connected, JavaText.Join([name, password, ip], [FieldSeparator]), id, Some(host))
            == Ok((Welcome(name), connected[name := Account(id, name, password, host)]))
  {
    DetailsRoundTrip(name, password, ip);
  }

  /** Sign-on messages one after the other, each with what its address
      resolves to, the i-th creating account `i`; a sign-on that throws
      leaves the table as it was. */
  function ConnectAll(connected: Connected, signOns: seq<(string, Option<string>)>, firstId: nat): Connected
    decreases |signOns|
  {
    if |signOns| == 0 then connected
    else
      var r := HandleConnection(connected, signOns[0].0, firstId, signOns[0].1);
      ConnectAll(if r.Ok? then r.value.1 else connected, signOns[1..], firstId + 1)
  }

  /** Over any run of sign-ons, an account once registered is never
      replaced, and every account stays under its own name. */
  lemma {:induction false} ConnectionsKeepEntries(connected: Connected, signOns: seq<(string, Option<string>)>, firstId: nat)
    requires Keyed(connected)
    ensures Keyed(ConnectAll(connected, signOns, firstId))
    ensures forall n :: n in connected ==> n in ConnectAll(connected, signOns, firstId) && ConnectAll(connected, signOns, firstId)[n] == connected[n]
    decreases |signOns|
  {
    if |signOns| > 0 {
      var r := HandleConnection(connected, signOns[0].0, firstId, signOns[0].1);
      ConnectionsKeepEntries(if r.Ok? then r.value.1 else connected, signOns[1..], firstId + 1);
    }
  }
}
