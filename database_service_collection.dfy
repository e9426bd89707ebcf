/**
 * `DatabaseServiceCollection` of Client/DatabaseServiceCollection.cs: a
 * fixed, non-empty list of database services and a current default among
 * them, which a short name can select.
 */
module DatabaseServices {
  import opened Wrappers

  /**
   * An `IDatabaseService` as far as the collection sees it: the object's
   * identity and its `ShortName`.
   */
  datatype Service = Service(id: nat, shortName: string)

  /**
   * `char.IsWhiteSpace`: the Unicode space, line and paragraph separators,
   * the controls U+0009 to U+000D, and U+0085.
   */
  predicate IsWhiteSpace(c: char) {
    var n := c as int;
    (0x09 <= n <= 0x0D) || n == 0x20 || n == 0x85 || n == 0xA0 || n == 0x1680 ||
    (0x2000 <= n <= 0x200A) || n == 0x2028 || n == 0x2029 || n == 0x202F || n == 0x205F || n == 0x3000
  }

  /** `string.IsNullOrWhiteSpace`: null, empty, or white space only. */
  predicate IsNullOrWhiteSpace(s: Option<string>) {
    s.None? || forall i :: 0 <= i < |s.value| ==> IsWhiteSpace(s.value[i])
  }

  /** `FirstOrDefault(db => db.ShortName == name)`: the position of the first service so named. */
  function FirstNamed(services: seq<Service>, name: string): (r: Option<nat>)
    ensures r.None? <==> forall j :: 0 <= j < |services| ==> services[j].shortName != name
    ensures r.Some? ==> r.value < |services| && services[r.value].shortName == name
    ensures r.Some? ==> forall j :: 0 <= j < r.value ==> services[j].shortName != name
  {
    if services == [] then None
    else if services[0].shortName == name then Some(0)
    else match FirstNamed(services[1..], name)
      case None => None
      case Some(i) => Some(i + 1)
  }

  /** `FindIndex(dbs => dbs.Equals(s))`: the first position holding `s`, or -1. */
  function IndexOf(services: seq<Service>, s: Service): (i: int)
    ensures -1 <= i < |services|
    ensures i == -1 <==> s !in services
    ensures 0 <= i ==> services[i] == s && forall j :: 0 <= j < i ==> services[j] != s
  {
    if services == [] then -1
    else if services[0] == s then 0
    else
      var i := IndexOf(services[1..], s);
      if i == -1 then -1 else i + 1
  }

  class DatabaseServiceCollection {
    /** `dbServices`: read-only after construction, and exposed as `Databases`. */
    const services: seq<Service>
    /** `Default`. */
    var default: Service

    /** There is a service, and the default is one of them. */
    ghost predicate Valid()
      reads this
    {
      |services| > 0 && default in services
    }

    /** The body of the constructor once its argument is known to be a non-empty list. */
    constructor Init(databases: seq<Service>)
      requires |databases| > 0
      ensures services == databases && default == databases[0] && Valid()
    {
      services := databases;
      default := databases[0];
    }

    /**
     * `TrySetDefault`: a null or blank name, or a name no service has,
     * answers false and leaves the default alone; otherwise the first
     * service so named becomes the default.
     */
    method TrySetDefault(shortName: Option<string>) returns (ok: bool)
      requires Valid()
      modifies this
      ensures Valid()
      ensures ok <==> !IsNullOrWhiteSpace(shortName) && FirstNamed(services, shortName.value).Some?
      ensures !ok ==> default == old(default)
      ensures ok ==> default == services[FirstNamed(services, shortName.value).value]
      ensures ok ==> default.shortName == shortName.value
    {
      if IsNullOrWhiteSpace(shortName) {
        return false;
      }
      var found := FirstNamed(services, shortName.value);
      if found.None? {
        return false;
      }
      default := services[found.value];
      return true;
    }

    /** `Index`: the position of the first service equal to `s`, or -1 when there is none. */
    function Index(s: Service): (i: int)
      ensures -1 <= i < |services|
      ensures i == -1 <==> s !in services
      ensures 0 <= i ==> services[i] == s && forall j :: 0 <= j < i ==> services[j] != s
    {
      IndexOf(services, s)
    }
  }

  /**
   * The constructor: a null argument throws `ArgumentNullException`, an
   * empty one `ArgumentException`; otherwise the list is kept and its first
   * service is the default.
   */
  method Create(databases: Option<seq<Service>>) returns (r: Result<DatabaseServiceCollection>)
    ensures databases.None? <==> r.Err? && r.error == ArgumentNull
    ensures databases == Some([]) <==> r.Err? && r.error == Argument
    ensures r.Ok? ==> fresh(r.value) && r.value.Valid() && r.value.services == databases.value
    ensures r.Ok? ==> r.value.default == databases.value[0]
  {
    if databases.None? {
      return Err(ArgumentNull);
    }
    if |databases.value| == 0 {
      return Err(Argument);
    }
    var c := new DatabaseServiceCollection.Init(databases.value);
    return Ok(c);
  }

  /** A name is found exactly when some service carries it. */
  lemma {:induction false} FoundIffNamed(services: seq<Service>, name: string)
    ensures FirstNamed(services, name).Some? <==> exists s :: s in services && s.shortName == name
  {
    if FirstNamed(services, name).Some? {
      assert services[FirstNamed(services, name).value] in services;
    }
  }
}
