/** Values shared by every part of the chat engine: optional values (Java's
    `null`), results of operations that can throw, network endpoints, and the
    notion of "an enumeration of a set" used wherever the source iterates over
    a `HashMap` or `HashSet` in an unspecified order. */
module Base {

  /** A Java reference that may be `null`. */
  datatype Option<T> = None | Some(value: T)

  /** An exception the source lets escape from a handler. */
  datatype Fault =
    | NullPointer(detail: string)         // a method was invoked on `null`, or `null` was unboxed
    | NoSuchConstructor(className: string) // reflection found no `(CommandContext)` constructor
    | IllegalCapacity(capacity: int)       // a hash set was created with a negative initial capacity
    | UnknownHost(host: string)            // a host name or address text did not resolve

  /** The text `Exception.getMessage()` yields for a fault. For a missing
      constructor and an illegal capacity this is the JVM's format; for a
      null dereference it is a description of the dereferenced expression;
      for an unresolved host it is the host without the resolver's reason. */
  function Describe(f: Fault): string
  {
    match f
    case NullPointer(detail) => detail
    case NoSuchConstructor(className) => className + ".<init>(common.command.CommandContext)"
    case IllegalCapacity(capacity) => "Illegal initial capacity: " + DecimalText(capacity)
    case UnknownHost(host) => host
  }

  /** Java's decimal rendering of an `int`: a `-` for a negative value, then
      the digits without leading zeros. */
  function DecimalText(i: int): string
  {
    if i < 0 then "-" + Digits(-i) else Digits(i)
  }

  /** The decimal digits of `n`, most significant first. */
  function Digits(n: nat): string
    decreases n
  {
    var last := "0123456789"[n % 10];
    if n < 10 then [last] else Digits(n / 10) + [last]
  }

  /** The outcome of a Java call that either returns a value or throws. */
  datatype Result<T> = Ok(value: T) | Err(fault: Fault)

  /** A UDP endpoint: the host text and the port. */
  datatype Endpoint = Endpoint(host: string, port: int)

  /** `order` lists every element of `s` exactly once. */
  ghost predicate Enumerates<T(!new)>(order: seq<T>, s: set<T>)
  {
    && (forall i, j :: 0 <= i < j < |order| ==> order[i] != order[j])
    && (forall x :: x in s <==> x in order)
  }

  /** An enumeration has exactly as many entries as the set has elements. */
  lemma {:induction false} EnumerationSize<T(!new)>(order: seq<T>, s: set<T>)
    requires Enumerates(order, s)
    ensures |order| == |s|
    decreases |order|
  {
    if |order| > 0 {
      var x := order[0];
      var rest := order[1..];
      assert forall i, j :: 0 <= i < j < |rest| ==> rest[i] != rest[j] by {
        forall i, j | 0 <= i < j < |rest|
          ensures rest[i] != rest[j]
        {
          assert rest[i] == order[i + 1] && rest[j] == order[j + 1];
        }
      }
      forall y
        ensures y in s - {x} <==> y in rest
      {
        if y in rest {
          var k :| 0 <= k < |rest| && rest[k] == y;
          assert order[k + 1] == y;
          assert order[0] != order[k + 1];
        }
        if y in s && y != x {
          assert y in order;
          var k :| 0 <= k < |order| && order[k] == y;
          assert k != 0;
          assert rest[k - 1] == y;
        }
      }
      EnumerationSize(rest, s - {x});
    } else {
      assert forall x :: x !in s;
      assert s == {};
    }
  }
}
