/** The value types of the chat engine: the two user records of the source
    and the chat message with its wire rendering `[<username>] <text>`. */
module Model {
  import opened Base
  import JavaText

  /** A logged-in user of the registry (`UserManager`): the username and the
      socket address it logged in from. This is `test2/common/model/User`.
      `common/data/UserManager` is written against the same two-argument
      constructor and socket-address getter, which `common/model/User` does
      not have; both registries are modelled with this record. */
  datatype User = User(username: string, address: Endpoint)

  /** `common/model/User`, the record held by the capacity-bounded `Users`
      set and the `ConnectionHandler` map. The class does not override
      `equals`, so two objects are equal only when they are the same object:
      `id` stands for that object identity. `host` is the text `getAddress()`
      returns for the address the constructor resolved. */
  datatype Account = Account(id: nat, name: string, password: string, host: string)

  /** A chat line and its author (`common/model/Message`, whose fields have
      setters, and `test2/common/model/Message`, whose fields are final). */
  datatype Message = Message(user: User, text: string)

  /** `Message.toString()`: the author's name in brackets, a space, the text. */
  function Render(m: Message): (r: string)
    ensures |r| == |m.user.username| + |m.text| + 3
    ensures r[0] == '[' && r[|m.user.username| + 1] == ']' && r[|m.user.username| + 2] == ' '
    ensures r[1..|m.user.username| + 1] == m.user.username
    ensures r[|m.user.username| + 3..] == m.text
  {
    "[" + m.user.username + "] " + m.text
  }

  /** Reads a rendered line back into its name and text, taking the name to
      end at the first `]`. */
  function ParseRendered(r: string): Option<(string, string)>
  {
    if |r| == 0 || r[0] != '[' then None
    else
      var close := 1 + JavaText.IndexOf(r[1..], ']');
      if close + 1 < |r| && r[close + 1] == ' ' then Some((r[1..close], r[close + 2..]))
      else None
  }

  /** For a username without `]`, the rendering determines the username and
      the text: a reader recovers exactly what was rendered. */
  lemma RenderRoundTrip(m: Message)
    requires ']' !in m.user.username
    ensures ParseRendered(Render(m)) == Some((m.user.username, m.text))
  {
    var r := Render(m);
    var n := m.user.username;
    assert r[1..] == n + "] " + m.text;
    JavaText.IndexOfAfterPrefix(n, ']', " " + m.text);
    assert n + "] " + m.text == n + [']'] + (" " + m.text);
  }

  /** `Message.setText`: only the text changes. */
  function SetText(m: Message, text: string): (r: Message)
    ensures r.text == text && r.user == m.user
    ensures Render(r)[..|m.user.username| + 3] == Render(m)[..|m.user.username| + 3]
  {
    m.(text := text)
  }

  /** `Message.setUser`: only the author changes. */
  function SetUser(m: Message, user: User): (r: Message)
    ensures r.user == user && r.text == m.text
    ensures Render(r)[|user.username| + 3..] == Render(m)[|m.user.username| + 3..]
  {
    m.(user := user)
  }
}
