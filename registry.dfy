/**
 * The name tables of registry.py. One registry maps names to classes; registering a name
 * again replaces its entry, and looking up a missing name is an error. The module keeps
 * three independent registries (encryptors, operations, chaos maps).
 */
module Registry {
  import opened Util

  /** `get_class(name)` on a table: the entry, or the `ValueError` for a missing name. */
  function Lookup<C>(table: map<string, C>, name: string): (r: Result<C, string>)
    ensures r.Success? <==> name in table
    ensures r.Success? ==> r.value == table[name]
    ensures r.Failure? ==> r.error == "Unregistered Encryptor: " + name
  {
    if name in table then Success(table[name]) else Failure("Unregistered Encryptor: " + name)
  }

  /** The entry registered last under a name is the one found; other names keep theirs. */
  lemma LookupAfterRegister<C>(table: map<string, C>, name: string, cls: C, other: string)
    ensures Lookup(table[name := cls], name) == Success(cls)
    ensures other != name ==> Lookup(table[name := cls], other) == Lookup(table, other)
  {
  }

  class Registry<C> {
    /** `self.registry`. */
    var table: map<string, C>

    constructor ()
      ensures table == map[]
    {
      table := map[];
    }

    /** `register(name)(cls)`: the decorator stores `cls` under `name` and hands `cls` back. */
    method Register(name: string, cls: C) returns (r: C)
      modifies this
      ensures table == old(table)[name := cls]
      ensures r == cls
    {
      table := table[name := cls];
      r := cls;
    }

    /** `get_class(name)`. */
    method GetClass(name: string) returns (r: Result<C, string>)
      ensures r == Lookup(table, name)
    {
      if name in table {
        r := Success(table[name]);
      } else {
        r := Failure("Unregistered Encryptor: " + name);
      }
    }

    /**
     * `build(name, *args, **kwargs)`: the looked-up class applied to the arguments, which
     * `make` stands for; it fails exactly when `get_class` does.
     */
    method Build<O>(name: string, make: C -> O) returns (r: Result<O, string>)
      ensures r.Success? <==> Lookup(table, name).Success?
      ensures r.Success? ==> r.value == make(table[name])
      ensures r.Failure? ==> r.error == Lookup(table, name).error
    {
      var c := GetClass(name);
      match c
      case Success(cls) =>
        r := Success(make(cls));
      case Failure(e) =>
        r := Failure(e);
    }
  }
}
