/** The node tree of include/softloq-json/element.hpp: a closed set of six
    variants. Containers own their children exclusively, so the tree is an
    inductive datatype; the leaf classes whose setters assign a private field are
    also given as Dafny classes below. */
module Elements {
  import opened Base

  /** `enum class ElementType`. */
  datatype ElementType = ObjectType | ArrayType | StringType | NumberType | BoolType | NullType

  /** One JSON node. An Object's entries are kept in a sequence whose keys are
      distinct (see `DistinctKeys`); the sequence order stands for the iteration
      order of the `std::unordered_map`, which the library leaves unspecified. A
      Number holds the exact value of its lexeme (the library stores a `float`). */
  datatype Element =
    | Object(members: seq<Member>)
    | Array(elements: seq<Element>)
    | String(text: seq<byte>)
    | Number(number: real)
    | Bool(flag: bool)
    | Null

  /** One key/value entry of an Object. */
  datatype Member = Member(key: seq<byte>, value: Element)

  /** `getElementType()`: each variant reports its own tag. */
  function TypeOf(e: Element): (t: ElementType)
    ensures t == ObjectType <==> e.Object?
    ensures t == ArrayType <==> e.Array?
    ensures t == StringType <==> e.String?
    ensures t == NumberType <==> e.Number?
    ensures t == BoolType <==> e.Bool?
    ensures t == NullType <==> e.Null?
  {
    match e
    case Object(_) => ObjectType
    case Array(_) => ArrayType
    case String(_) => StringType
    case Number(_) => NumberType
    case Bool(_) => BoolType
    case Null => NullType
  }

  /** `as<T>()`: the node itself when its dynamic type is `t`, nothing otherwise. */
  function As(e: Element, t: ElementType): (r: Option<Element>)
    ensures r.Some? <==> TypeOf(e) == t
    ensures r.Some? ==> r.value == e
  {
    if TypeOf(e) == t then Some(e) else None
  }

  predicate HasKey(ms: seq<Member>, k: seq<byte>) {
    exists i | 0 <= i < |ms| :: ms[i].key == k
  }

  predicate DistinctKeys(ms: seq<Member>) {
    forall i, j | 0 <= i < j < |ms| :: ms[i].key != ms[j].key
  }

  /** Adding an entry whose key is new keeps the keys distinct. */
  lemma AppendDistinct(ms: seq<Member>, m: Member)
    requires DistinctKeys(ms) && !HasKey(ms, m.key)
    ensures DistinctKeys(ms + [m])
  {
    var ms' := ms + [m];
    forall i, j | 0 <= i < j < |ms'| ensures ms'[i].key != ms'[j].key {
      if j < |ms| {
        assert ms'[i] == ms[i] && ms'[j] == ms[j];
      } else {
        assert ms'[i] == ms[i];
      }
    }
  }

  /** The map view of an Object's entries (`std::unordered_map<std::string, ...>`):
      with distinct keys every entry is in it and nothing else. */
  function Entries(ms: seq<Member>): (m: map<seq<byte>, Element>)
    requires DistinctKeys(ms)
    ensures forall i | 0 <= i < |ms| :: ms[i].key in m && m[ms[i].key] == ms[i].value
    ensures forall k | k in m :: HasKey(ms, k)
  {
    if ms == [] then map[]
    else
      var init := ms[..|ms| - 1];
      var last := ms[|ms| - 1];
      assert DistinctKeys(init) by {
        forall i, j | 0 <= i < j < |init| ensures init[i].key != init[j].key {
          assert init[i] == ms[i] && init[j] == ms[j];
        }
      }
      var m0 := Entries(init);
      assert !HasKey(init, last.key) by {
        forall i | 0 <= i < |init| ensures init[i].key != last.key {
          assert init[i] == ms[i];
        }
      }
      var m := m0[last.key := last.value];
      assert forall i | 0 <= i < |ms| :: ms[i].key in m && m[ms[i].key] == ms[i].value by {
        forall i | 0 <= i < |ms| ensures ms[i].key in m && m[ms[i].key] == ms[i].value {
          if i < |ms| - 1 {
            assert ms[i] == init[i];
          }
        }
      }
      assert forall k | k in m :: HasKey(ms, k) by {
        forall k | k in m ensures HasKey(ms, k) {
          if k != last.key {
            var i :| 0 <= i < |init| && init[i].key == k;
            assert ms[i].key == k;
          }
        }
      }
      m
  }

  /** Every Object in the tree, at any depth, has distinct keys, as the reader
      guarantees. */
  predicate WellFormed(e: Element) {
    match e
    case Object(ms) => DistinctKeys(ms) && forall i | 0 <= i < |ms| :: WellFormed(ms[i].value)
    case Array(es) => forall i | 0 <= i < |es| :: WellFormed(es[i])
    case _ => true
  }

  /** `class String`: a byte string with a setter and a getter. */
  class StringNode {
    var value: seq<byte>

    /** `String()`: the empty string. */
    constructor Empty()
      ensures value == []
    {
      value := [];
    }

    /** `String(const std::string &)`: stores its argument unchanged. */
    constructor (v: seq<byte>)
      ensures value == v
    {
      value := v;
    }

    function GetString(): seq<byte>
      reads this
    {
      value
    }

    method SetString(v: seq<byte>)
      modifies this
      ensures GetString() == v
    {
      value := v;
    }

    /** The node this object stands for in the tree. */
    function AsElement(): (e: Element)
      reads this
      ensures e.String? && e.text == GetString()
    {
      String(value)
    }
  }

  /** `class Number`; the `float` is modelled by its exact value. */
  class NumberNode {
    var value: real

    /** `Number()`: zero. */
    constructor Zero()
      ensures value == 0.0
    {
      value := 0.0;
    }

    constructor (v: real)
      ensures value == v
    {
      value := v;
    }

    function GetNumber(): real
      reads this
    {
      value
    }

    method SetNumber(v: real)
      modifies this
      ensures GetNumber() == v
    {
      value := v;
    }

    function AsElement(): (e: Element)
      reads this
      ensures e.Number? && e.number == GetNumber()
    {
      Number(value)
    }
  }

  /** `class Bool`. */
  class BoolNode {
    var value: bool

    /** `Bool()`: false. */
    constructor False()
      ensures !value
    {
      value := false;
    }

    constructor (v: bool)
      ensures value == v
    {
      value := v;
    }

    function GetBool(): bool
      reads this
    {
      value
    }

    method SetBool(v: bool)
      modifies this
      ensures GetBool() == v
    {
      value := v;
    }

    function AsElement(): (e: Element)
      reads this
      ensures e.Bool? && e.flag == GetBool()
    {
      Bool(value)
    }
  }
}
