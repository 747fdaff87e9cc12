/** Plain-data stand-ins for the Python objects the context engine inspects.
    A class is an opaque identifier; what reflection would read off it
    (its immediate base, its resolution order, the classes its annotations
    mention) is carried alongside it in a ClassInfo. */
module Classes {

  /** A class object. Two classes may share a name; `uid` tells them apart,
      as object identity does in Python. */
  datatype ClassId = ClassId(name: string, uid: nat)

  /** Python's universal base class `object`. */
  const Object: ClassId := ClassId("object", 0)

  /** What reflection supplies about a class being declared.
      - base: `klass.__base__`
      - mro: `klass.__mro__`, most specific first
      - fieldRefs: the values of the class's own field annotations
      - initRefs: every value of the annotations of its `__init__`, the
        return annotation included: `-> None` contributes `None` */
  datatype ClassInfo = ClassInfo(
    id: ClassId,
    base: ClassId,
    mro: seq<ClassId>,
    fieldRefs: seq<ClassId>,
    initRefs: seq<ClassId>)

  /** The set `set(fields) | set(init_params)` the policy check walks. */
  function Referenced(c: ClassInfo): set<ClassId>
  {
    (set r | r in c.fieldRefs) + (set r | r in c.initRefs)
  }

  /** The two exception kinds a declaration can raise. */
  datatype Error =
    | KeyError(key: ClassId)
    | TypeError(message: string)

  /** How a step ends: it returns normally or raises. */
  datatype Outcome = Returned | Raised(error: Error)

  datatype Option<T> = None | Some(value: T)

  /** Text of the TypeError raised by `None["inspector"]`, i.e. by looking up
      an unregistered class with `.get(...)` and subscripting the result. */
  const NoneNotSubscriptable: string := "'NoneType' object is not subscriptable"

  /** Text of the policy violation raised for class `used` referenced from
      context `here` while it belongs to context `there`. */
  function ViolationMessage(used: ClassId, here: ClassId, there: ClassId): string
  {
    "Class '" + used.name + "' can not be used in context '" + here.name
      + "' because it used in context '" + there.name + "'"
  }

  // The classes the test scenarios declare. Each test declares its own
  // classes of these names; one identity per name is enough for the model.
  const UserContext: ClassId := ClassId("UserContext", 1)
  const CatalogContext: ClassId := ClassId("CatalogContext", 2)
  const UserService: ClassId := ClassId("UserService", 3)
  const UserRepo: ClassId := ClassId("UserRepo", 4)
  const User: ClassId := ClassId("User", 5)
  const SpecialUser: ClassId := ClassId("SpecialUser", 6)
  const CatalogService: ClassId := ClassId("CatalogService", 7)

  /** `None` as the value of an `-> None` return annotation. It is never a
      key of the registry. */
  const NoneAnnotation: ClassId := ClassId("None", 8)
}
