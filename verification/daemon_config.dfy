/** The daemon's YAML configuration as an ordered document, edited in place
    (internal/pkg/daemon/config.go). */
module DaemonConfig {
  import opened Text
  import opened FileSystem

  datatype Node = Scalar(text: string) | Mapping(fields: seq<Field>)
  datatype Field = Field(key: string, value: Node)

  /** The YAML library: its parser, its printer, its unsigned integers, and what it
      reads from a text in the quotes of Go's %q. */
  datatype Yaml = Yaml(
    parse: string -> Option<Node>, format: Node -> string,
    toUint: string -> Option<nat>, readQuoted: string -> string)

  // ------------------------------------------------------------ fields

  /** The parser admits a key only once. */
  predicate Unique(fields: seq<Field>) {
    forall i, j | 0 <= i < j < |fields| :: fields[i].key != fields[j].key
  }

  predicate HasField(fields: seq<Field>, key: string) {
    exists i | 0 <= i < |fields| :: fields[i].key == key
  }

  function Get(fields: seq<Field>, key: string): Option<Node> {
    if fields == [] then None
    else if fields[0].key == key then Some(fields[0].value)
    else Get(fields[1..], key)
  }

  function Keys(fields: seq<Field>): (keys: seq<string>)
    ensures |keys| == |fields| && forall i | 0 <= i < |fields| :: keys[i] == fields[i].key
  {
    seq(|fields|, i requires 0 <= i < |fields| => fields[i].key)
  }

  /** Replaces the value of a key in its place, or adds the key at the end. */
  function SetField(fields: seq<Field>, key: string, value: Node): seq<Field> {
    if fields == [] then [Field(key, value)]
    else if fields[0].key == key then [Field(key, value)] + fields[1..]
    else [fields[0]] + SetField(fields[1..], key, value)
  }

  /** Removes the first field with a key. */
  function DropField(fields: seq<Field>, key: string): seq<Field> {
    if fields == [] then []
    else if fields[0].key == key then fields[1..]
    else [fields[0]] + DropField(fields[1..], key)
  }

  lemma {:induction false} GetHas(fields: seq<Field>, key: string)
    ensures Get(fields, key).Some? <==> HasField(fields, key)
  {
    if fields != [] && fields[0].key != key {
      GetHas(fields[1..], key);
      assert forall i | 0 < i < |fields| :: fields[i] == fields[1..][i - 1];
    }
  }

  lemma {:induction false} SetFieldGet(fields: seq<Field>, key: string, value: Node, k: string)
    ensures Get(SetField(fields, key, value), k) == if k == key then Some(value) else Get(fields, k)
  {
    if fields != [] && fields[0].key != key {
      SetFieldGet(fields[1..], key, value, k);
    }
  }

  lemma {:induction false} SetFieldKeys(fields: seq<Field>, key: string, value: Node)
    ensures Keys(SetField(fields, key, value)) == Keys(fields) + if HasField(fields, key) then [] else [key]
  {
    if fields != [] {
      var rest := fields[1..];
      assert fields == [fields[0]] + rest;
      KeysCons(fields[0], rest);
      HasCons(fields[0], rest, key);
      if fields[0].key == key {
        KeysCons(Field(key, value), rest);
      } else {
        SetFieldKeys(rest, key, value);
        KeysCons(fields[0], SetField(rest, key, value));
      }
    }
  }

  lemma HasCons(f: Field, rest: seq<Field>, key: string)
    ensures HasField([f] + rest, key) <==> f.key == key || HasField(rest, key)
  {
    var all := [f] + rest;
    assert all[0] == f && forall i | 0 < i < |all| :: all[i] == rest[i - 1];
    if i: nat :| i < |rest| && rest[i].key == key {
      assert all[i + 1].key == key;
    }
  }

  lemma {:induction false} DropFieldGet(fields: seq<Field>, key: string, k: string)
    requires Unique(fields)
    ensures Unique(DropField(fields, key))
    ensures forall f | f in DropField(fields, key) :: f in fields
    ensures Get(DropField(fields, key), k) == if k == key then None else Get(fields, k)
  {
    if fields != [] && fields[0].key == key {
      GetHas(fields[1..], key);
    } else if fields != [] {
      DropFieldGet(fields[1..], key, k);
      var rest := DropField(fields[1..], key);
      forall i | 0 <= i < |rest| ensures rest[i].key != fields[0].key {
        assert rest[i] in fields[1..];
      }
    }
  }

  /** Dropping a key leaves the others in their order. */
  lemma {:induction false} DropFieldKeys(fields: seq<Field>, key: string)
    requires Unique(fields)
    ensures Keys(DropField(fields, key)) == WithoutKey(Keys(fields), key)
  {
    if fields != [] {
      var rest := fields[1..];
      assert fields == [fields[0]] + rest;
      KeysCons(fields[0], rest);
      assert Keys(fields)[1..] == Keys(rest);
      if fields[0].key == key {
        assert forall i | 0 <= i < |rest| :: rest[i] == fields[i + 1];
        WithoutAbsent(Keys(rest), key);
      } else {
        DropFieldKeys(rest, key);
        KeysCons(fields[0], DropField(rest, key));
      }
    }
  }

  lemma KeysCons(f: Field, rest: seq<Field>)
    ensures Keys([f] + rest) == [f.key] + Keys(rest)
  {
    var all := [f] + rest;
    forall i | 0 <= i < |all| ensures Keys(all)[i] == ([f.key] + Keys(rest))[i] {
      if i > 0 { assert all[i] == rest[i - 1]; }
    }
  }

  function WithoutKey(keys: seq<string>, key: string): seq<string> {
    if keys == [] then []
    else if keys[0] == key then WithoutKey(keys[1..], key)
    else [keys[0]] + WithoutKey(keys[1..], key)
  }

  lemma {:induction false} WithoutAbsent(keys: seq<string>, key: string)
    requires key !in keys
    ensures WithoutKey(keys, key) == keys
  {
    if keys != [] {
      WithoutAbsent(keys[1..], key);
    }
  }

  // ------------------------------------------------- the switch to gRPC

  const LegacyKeys: seq<string> := ["api_host", "listen_ip", "listen_port"]

  /** The mapping under grpc: with the daemon's protocol switched on. */
  function EnabledFields(grpc: seq<Field>, address: string, readQuoted: string -> string): seq<Field> {
    var on := SetField(grpc, "enabled", Scalar("true"));
    if address == "" then on else SetField(on, "address", Scalar(readQuoted(address)))
  }

  /** The edited document, if its root, and grpc: if there is one, are mappings. */
  function WithGRPC(fields: seq<Field>, address: string, readQuoted: string -> string): Option<seq<Field>> {
    match Get(fields, "grpc")
    case None => Some(fields + [Field("grpc", Mapping(EnabledFields([], address, readQuoted)))])
    case Some(Mapping(grpc)) => Some(SetField(fields, "grpc", Mapping(EnabledFields(grpc, address, readQuoted))))
    case Some(Scalar(_)) => None
  }

  function WithoutLegacy(fields: seq<Field>): seq<Field> {
    DropField(DropField(DropField(fields, "api_host"), "listen_ip"), "listen_port")
  }

  function Switched(root: Node, address: string, readQuoted: string -> string): Option<Node> {
    if root.Scalar? then None
    else match WithGRPC(root.fields, address, readQuoted)
      case None => None
      case Some(fields) => Some(Mapping(WithoutLegacy(fields)))
  }

  /** A scalar under a path, as ReadString sees it. */
  datatype ReadResult = Found(text: string) | Missing | Unreadable

  function ReadField(fields: seq<Field>, key: string): ReadResult {
    match Get(fields, key)
    case None => Missing
    case Some(Scalar(text)) => Found(text)
    case Some(Mapping(_)) => Unreadable
  }

  function Read(root: Node, key: string): ReadResult {
    if root.Scalar? then Unreadable else ReadField(root.fields, key)
  }

  function ReadGRPC(root: Node, key: string): ReadResult {
    if root.Scalar? then Unreadable
    else match Get(root.fields, "grpc")
      case None => Missing
      case Some(Mapping(grpc)) => ReadField(grpc, key)
      case Some(Scalar(_)) => Unreadable
  }

  lemma {:induction false} GetAt(fields: seq<Field>, i: nat)
    requires Unique(fields) && i < |fields|
    ensures Get(fields, fields[i].key) == Some(fields[i].value)
  {
    if i > 0 {
      assert fields[0].key != fields[i].key;
      GetAt(fields[1..], i - 1);
    }
  }

  /** What is read at a key: the text of a scalar; anything else there is an error,
      and so is a document that is no mapping. */
  lemma ReadAt(fields: seq<Field>, i: nat, key: string, text: string)
    requires Unique(fields)
    ensures i < |fields| ==>
      Read(Mapping(fields), fields[i].key) ==
        if fields[i].value.Scalar? then Found(fields[i].value.text) else Unreadable
    ensures !HasField(fields, key) ==> Read(Mapping(fields), key) == Missing
    ensures Read(Scalar(text), key) == Unreadable && ReadGRPC(Scalar(text), key) == Unreadable
    ensures i < |fields| && fields[i].key == "grpc" ==>
      ReadGRPC(Mapping(fields), key) == if fields[i].value.Scalar? then Unreadable else Read(fields[i].value, key)
    ensures !HasField(fields, "grpc") ==> ReadGRPC(Mapping(fields), key) == Missing
  {
    if i < |fields| {
      GetAt(fields, i);
    }
    GetHas(fields, key);
    GetHas(fields, "grpc");
  }

  /** ConfigFile: the parsed document and the bytes it was last read from. */
  class ConfigFile {
    var root: Node
    var data: string
    const path: string
    const yaml: Yaml

    constructor (root: Node, data: string, path: string, yaml: Yaml)
      ensures this.root == root && this.data == data && this.path == path && this.yaml == yaml
    {
      this.root, this.data, this.path, this.yaml := root, data, path, yaml;
    }

    /** A key under grpc: is replaced in its place, or merged in at the end; `scalar`
        is the text as the parser reads it. */
    method SetUnderGRPC(key: string, scalar: string) returns (ok: bool)
      requires root.Mapping? && Get(root.fields, "grpc").Some?
      modifies this`root
      ensures var was := old(root);
        ok == Get(was.fields, "grpc").value.Mapping?
        && root == if ok
             then Mapping(SetField(was.fields, "grpc",
                    Mapping(SetField(Get(was.fields, "grpc").value.fields, key, Scalar(scalar)))))
             else was
    {
      var grpc := Get(root.fields, "grpc").value;
      if grpc.Scalar? {
        return false;
      }
      var fields := grpc.fields;
      var i := FindKey(fields, key);
      if i < |fields| {
        fields := fields[i := Field(key, Scalar(scalar))];
      } else {
        fields := fields + [Field(key, Scalar(scalar))];
      }
      SetFieldAt(grpc.fields, key, Scalar(scalar), i);
      var g := FindKey(root.fields, "grpc");
      GetHas(root.fields, "grpc");
      SetFieldAt(root.fields, "grpc", Mapping(fields), g);
      root := Mapping(root.fields[g := Field("grpc", Mapping(fields))]);
      return true;
    }

    /** An existing grpc: block is edited, a missing one is added at the end. */
    method EnsureGRPCEnabled(address: string) returns (ok: bool)
      modifies this`root
      ensures ok <==> old(root).Mapping? && WithGRPC(old(root).fields, address, yaml.readQuoted).Some?
      ensures ok ==> root == Mapping(WithGRPC(old(root).fields, address, yaml.readQuoted).value)
    {
      if root.Scalar? {
        return false;
      }
      var was := root.fields;
      if Get(was, "grpc").Some? {
        ok := SetUnderGRPC("enabled", "true");
        if !ok {
          return;
        }
        SetFieldGet(was, "grpc", Mapping(SetField(Get(was, "grpc").value.fields, "enabled", Scalar("true"))), "grpc");
        if address != "" {
          ghost var on := SetField(Get(was, "grpc").value.fields, "enabled", Scalar("true"));
          ok := SetUnderGRPC("address", yaml.readQuoted(address));
          SetFieldTwice(was, "grpc", Mapping(on), Mapping(SetField(on, "address", Scalar(yaml.readQuoted(address)))));
        }
        return;
      }
      var block := [Field("enabled", Scalar("true"))];
      if address != "" {
        block := block + [Field("address", Scalar(yaml.readQuoted(address)))];
      }
      root := Mapping(was + [Field("grpc", Mapping(block))]);
      SetFieldAt([Field("enabled", Scalar("true"))], "address", Scalar(yaml.readQuoted(address)), 1);
      assert block == EnabledFields([], address, yaml.readQuoted);
      return true;
    }

    /** Removes a top-level key from the mapping in place; a missing key is no error. */
    method DeleteKey(key: string) returns (ok: bool)
      modifies this`root
      ensures ok == old(root).Mapping?
      ensures root == if ok then Mapping(DropField(old(root).fields, key)) else old(root)
    {
      if root.Scalar? {
        return false;
      }
      var fields := root.fields;
      var i := FindKey(fields, key);
      DropFieldAt(fields, key, i);
      if i < |fields| {
        root := Mapping(fields[..i] + fields[i + 1..]);
      }
      return true;
    }

    method Save(disk: Disk) returns (ok: bool)
      requires disk.Valid()
      modifies this`data, disk
      ensures disk.Valid() && old(disk.history) <= disk.history
      ensures disk.OnlyTouched(|old(disk.history)|, old(disk.trees), {path})
      ensures SameExcept(disk.trees, old(disk.trees), {path})
      ensures ok ==> Holds(disk.trees, path, File(Printed(yaml, root))) && data == Printed(yaml, root)
      ensures !ok ==> data == old(data)
      ensures disk.faults == old(disk.faults) + if ok then 0 else 1
    {
      var out := yaml.format(root);
      if out == "" || out[|out| - 1] != LF {
        out := out + [LF];
      }
      ok := disk.WriteFile(path, out);
      if ok {
        data := out;
      }
    }
  }

  function Printed(yaml: Yaml, root: Node): string {
    var out := yaml.format(root);
    if out == "" || out[|out| - 1] != LF then out + [LF] else out
  }

  method FindKey(fields: seq<Field>, key: string) returns (i: nat)
    ensures i <= |fields|
    ensures i < |fields| ==> fields[i].key == key
    ensures forall j | 0 <= j < i :: fields[j].key != key
  {
    i := 0;
    while i < |fields| && fields[i].key != key
      invariant i <= |fields|
      invariant forall j | 0 <= j < i :: fields[j].key != key
    {
      i := i + 1;
    }
  }

  lemma {:induction false} SetFieldAt(fields: seq<Field>, key: string, value: Node, i: nat)
    requires i <= |fields| && (i < |fields| ==> fields[i].key == key)
    requires forall j | 0 <= j < i :: fields[j].key != key
    ensures SetField(fields, key, value) ==
      if i < |fields| then fields[i := Field(key, value)] else fields + [Field(key, value)]
  {
    if i > 0 {
      SetFieldAt(fields[1..], key, value, i - 1);
    }
  }

  lemma {:induction false} DropFieldAt(fields: seq<Field>, key: string, i: nat)
    requires i <= |fields| && (i < |fields| ==> fields[i].key == key)
    requires forall j | 0 <= j < i :: fields[j].key != key
    ensures DropField(fields, key) == if i < |fields| then fields[..i] + fields[i + 1..] else fields
  {
    if i > 0 {
      DropFieldAt(fields[1..], key, i - 1);
      assert fields[..i] == [fields[0]] + fields[1..][..i - 1];
    }
  }

  lemma {:induction false} SetFieldTwice(fields: seq<Field>, key: string, v: Node, w: Node)
    ensures SetField(SetField(fields, key, v), key, w) == SetField(fields, key, w)
  {
    if fields != [] && fields[0].key != key {
      SetFieldTwice(fields[1..], key, v, w);
    }
  }

  // --------------------------------------------- what the switch changes

  predicate IsLegacy(key: string) {
    key == "api_host" || key == "listen_ip" || key == "listen_port"
  }

  lemma WithoutLegacyGet(fields: seq<Field>, k: string)
    requires Unique(fields)
    ensures Get(WithoutLegacy(fields), k) == if IsLegacy(k) then None else Get(fields, k)
  {
    var f1 := DropField(fields, "api_host");
    var f2 := DropField(f1, "listen_ip");
    DropFieldGet(fields, "api_host", k);
    DropFieldGet(f1, "listen_ip", k);
    DropFieldGet(f2, "listen_port", k);
  }

  lemma UniqueKeys(fields: seq<Field>, more: seq<Field>, key: string)
    requires Unique(fields)
    requires Keys(more) == Keys(fields) + if HasField(fields, key) then [] else [key]
    ensures Unique(more)
  {
    forall i, j | 0 <= i < j < |more| ensures more[i].key != more[j].key {
      assert Keys(more)[i] == more[i].key && Keys(more)[j] == more[j].key;
    }
  }

  lemma AppendIsSet(fields: seq<Field>, key: string, value: Node)
    requires !HasField(fields, key)
    ensures SetField(fields, key, value) == fields + [Field(key, value)]
  {
    SetFieldAt(fields, key, value, |fields|);
  }

  /** The edit in terms of keys: grpc.enabled is true, grpc.address is set, other
      keys under grpc: stay, the legacy keys are gone, and every other key keeps
      its value. */
  lemma SwitchedGet(root: Node, address: string, readQuoted: string -> string, k: string)
    requires root.Mapping? && Unique(root.fields) && Switched(root, address, readQuoted).Some?
    ensures var edited := Switched(root, address, readQuoted).value;
      && ReadGRPC(edited, "enabled") == Found("true")
      && (address != "" ==> ReadGRPC(edited, "address") == Found(readQuoted(address)))
      && (k != "enabled" && k != "address" ==> ReadGRPC(edited, k) == ReadGRPC(root, k))
      && (IsLegacy(k) ==> Read(edited, k) == Missing)
      && (!IsLegacy(k) && k != "grpc" ==> Get(edited.fields, k) == Get(root.fields, k))
  {
    var fields := root.fields;
    GetHas(fields, "grpc");
    var grpc := if Get(fields, "grpc").Some? then Get(fields, "grpc").value.fields else [];
    var on := SetField(grpc, "enabled", Scalar("true"));
    var block := Mapping(EnabledFields(grpc, address, readQuoted));
    if Get(fields, "grpc").None? {
      AppendIsSet(fields, "grpc", block);
    }
    var withGRPC := SetField(fields, "grpc", block);
    SetFieldKeys(fields, "grpc", block);
    UniqueKeys(fields, withGRPC, "grpc");
    SetFieldGet(fields, "grpc", block, k);
    SetFieldGet(fields, "grpc", block, "grpc");
    WithoutLegacyGet(withGRPC, k);
    WithoutLegacyGet(withGRPC, "grpc");
    SetFieldGet(grpc, "enabled", Scalar("true"), k);
    SetFieldGet(grpc, "enabled", Scalar("true"), "enabled");
    SetFieldGet(on, "address", Scalar(readQuoted(address)), k);
    SetFieldGet(on, "address", Scalar(readQuoted(address)), "enabled");
    SetFieldGet(on, "address", Scalar(readQuoted(address)), "address");
  }

  /** The edit leaves the order of the other keys as it was. */
  lemma SwitchedKeys(root: Node, address: string, readQuoted: string -> string)
    requires root.Mapping? && Unique(root.fields) && Switched(root, address, readQuoted).Some?
    ensures var keys := Keys(root.fields) + if HasField(root.fields, "grpc") then [] else ["grpc"];
      Keys(Switched(root, address, readQuoted).value.fields)
        == WithoutKey(WithoutKey(WithoutKey(keys, "api_host"), "listen_ip"), "listen_port")
  {
    var fields := root.fields;
    GetHas(fields, "grpc");
    var grpc := if Get(fields, "grpc").Some? then Get(fields, "grpc").value.fields else [];
    var block := Mapping(EnabledFields(grpc, address, readQuoted));
    if Get(fields, "grpc").None? {
      AppendIsSet(fields, "grpc", block);
    }
    var withGRPC := SetField(fields, "grpc", block);
    SetFieldKeys(fields, "grpc", block);
    UniqueKeys(fields, withGRPC, "grpc");
    var f1 := DropField(withGRPC, "api_host");
    var f2 := DropField(f1, "listen_ip");
    DropFieldGet(withGRPC, "api_host", "");
    DropFieldGet(f1, "listen_ip", "");
    DropFieldKeys(withGRPC, "api_host");
    DropFieldKeys(f1, "listen_ip");
    DropFieldKeys(f2, "listen_port");
  }
}
