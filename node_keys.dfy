/**
 * The single-key shapes a KeySet accepts, the order in which a value is
 * classified, and the canonical text form of a node key.
 *
 * A key arrives as a JavaScript object whose shape is found by probing
 * fields for truthiness. `KeyProps` holds the fields that the probes look at
 * (a string field that is absent or empty is falsy) together with the
 * `pathFromRoot` of a node key. `KeyValue.Falsy` stands for `undefined`,
 * `null` and the other falsy values.
 */
module NodeKeys {

  import opened Wrappers

  datatype KeyProps = KeyProps(
    classFullName: string,
    className: string,
    id: string,
    nodeType: string,   // the `type` field of a node key
    pathFromRoot: seq<string>)

  datatype KeyValue = Falsy | Props(props: KeyProps)

  /** The shape a value is treated as, found in priority order. */
  datatype Shape = EntityPropsShape | InstanceKeyShape | NodeKeyShape | Unrecognised

  /** `Key.isNodeKey`: the `type` field is truthy. */
  predicate IsNodeKey(k: KeyProps) { k.nodeType != "" }

  /** `Key.isInstanceKey`: `className` and `id` are truthy. */
  predicate IsInstanceKey(k: KeyProps) { k.className != "" && k.id != "" }

  /** `Key.isEntityProps`: `classFullName` and `id` are truthy. */
  predicate IsEntityProps(k: KeyProps) { k.classFullName != "" && k.id != "" }

  /**
   * The dispatch of `add`, `delete` and `has` for a single value: a falsy
   * value is rejected first, then entity props win over instance keys, which
   * win over node keys.
   */
  function Classify(v: KeyValue): (s: Shape)
    ensures s == EntityPropsShape <==> v.Props? && IsEntityProps(v.props)
    ensures s == InstanceKeyShape <==> v.Props? && !IsEntityProps(v.props) && IsInstanceKey(v.props)
    ensures s == NodeKeyShape <==>
      v.Props? && !IsEntityProps(v.props) && !IsInstanceKey(v.props) && IsNodeKey(v.props)
    ensures s == Unrecognised <==>
      v.Falsy? || (!IsEntityProps(v.props) && !IsInstanceKey(v.props) && !IsNodeKey(v.props))
  {
    match v
    case Falsy => Unrecognised
    case Props(k) =>
      if IsEntityProps(k) then EntityPropsShape
      else if IsInstanceKey(k) then InstanceKeyShape
      else if IsNodeKey(k) then NodeKeyShape
      else Unrecognised
  }

  /** The object literal `{ className, id }` that KeySet builds for an instance. */
  function InstanceValue(className: string, id: string): KeyValue {
    Props(KeyProps("", className, id, "", []))
  }

  function LowerChar(c: char): char {
    if 'A' <= c <= 'Z' then (c as int - 'A' as int + 'a' as int) as char else c
  }

  function Lower(s: string): (r: string)
    ensures |r| == |s|
  {
    if s == [] then [] else [LowerChar(s[0])] + Lower(s[1..])
  }

  /**
   * Stand-in for `Id64.fromJSON` on a string: ASCII letters are lower-cased,
   * and the empty string becomes the invalid id "0". The result is never
   * empty, so a normalised id is always truthy.
   */
  function NormalizeId(id: string): (r: string)
    ensures r != ""
    ensures id != "" ==> |r| == |id|
  {
    if id == "" then "0" else Lower(id)
  }

  // ---------------------------------------------------------------------
  // Canonical text form of a node key (the role of `JSON.stringify` and
  // `JSON.parse` in KeySet). A string is written as '+' c for each of its
  // characters followed by '.'; a list of strings as '+' and the string for
  // each element followed by '.'.
  // ---------------------------------------------------------------------

  function EncodeString(s: string): string {
    if s == [] then "." else ['+', s[0]] + EncodeString(s[1..])
  }

  /** Reads one encoded string off the front of `t`; the rest is shorter. */
  function DecodeString(t: string): (r: Option<(string, string)>)
    ensures r.Some? ==> |r.value.1| < |t|
  {
    if |t| == 0 then None
    else if t[0] == '.' then Some(([], t[1..]))
    else if t[0] == '+' && |t| >= 2 then
      match DecodeString(t[2..])
      case None => None
      case Some((s, rest)) => Some(([t[1]] + s, rest))
    else None
  }

  function EncodeList(ps: seq<string>): string {
    if ps == [] then "." else "+" + EncodeString(ps[0]) + EncodeList(ps[1..])
  }

  function DecodeList(t: string): (r: Option<(seq<string>, string)>)
    ensures r.Some? ==> |r.value.1| < |t|
    decreases |t|
  {
    if |t| == 0 then None
    else if t[0] == '.' then Some(([], t[1..]))
    else if t[0] == '+' then
      match DecodeString(t[1..])
      case None => None
      case Some((p, rest)) =>
        match DecodeList(rest)
        case None => None
        case Some((ps, rest')) => Some(([p] + ps, rest'))
    else None
  }

  /** The serialized node key stored in a KeySet. */
  function Ser(k: KeyProps): string {
    EncodeString(k.classFullName) + (EncodeString(k.className) + (EncodeString(k.id)
      + (EncodeString(k.nodeType) + EncodeList(k.pathFromRoot))))
  }

  /** The node key parsed from its serialized form, if the text is one. */
  function Deser(t: string): Option<KeyProps> {
    match DecodeString(t)
    case None => None
    case Some((a, t1)) =>
      match DecodeString(t1)
      case None => None
      case Some((b, t2)) =>
        match DecodeString(t2)
        case None => None
        case Some((c, t3)) =>
          match DecodeString(t3)
          case None => None
          case Some((d, t4)) =>
            match DecodeList(t4)
            case None => None
            case Some((ps, t5)) => if t5 == [] then Some(KeyProps(a, b, c, d, ps)) else None
  }

  lemma {:induction false} DecodeEncodeString(s: string, rest: string)
    ensures DecodeString(EncodeString(s) + rest) == Some((s, rest))
  {
    if s != [] {
      var t := EncodeString(s) + rest;
      assert t == ['+', s[0]] + (EncodeString(s[1..]) + rest);
      assert t[2..] == EncodeString(s[1..]) + rest;
      DecodeEncodeString(s[1..], rest);
      assert [s[0]] + s[1..] == s;
    }
  }

  lemma {:induction false} DecodeEncodeList(ps: seq<string>, rest: string)
    ensures DecodeList(EncodeList(ps) + rest) == Some((ps, rest))
  {
    if ps != [] {
      var t := EncodeList(ps) + rest;
      var tail := EncodeList(ps[1..]) + rest;
      assert t == "+" + (EncodeString(ps[0]) + tail);
      assert t[1..] == EncodeString(ps[0]) + tail;
      DecodeEncodeString(ps[0], tail);
      DecodeEncodeList(ps[1..], rest);
      assert [ps[0]] + ps[1..] == ps;
    }
  }

  /** Parsing the serialized form of a node key gives the key back. */
  lemma SerRoundTrip(k: KeyProps)
    ensures Deser(Ser(k)) == Some(k)
  {
    var e4 := EncodeList(k.pathFromRoot);
    var e3 := EncodeString(k.nodeType) + e4;
    var e2 := EncodeString(k.id) + e3;
    var e1 := EncodeString(k.className) + e2;
    assert Ser(k) == EncodeString(k.classFullName) + e1;
    DecodeEncodeString(k.classFullName, e1);
    DecodeEncodeString(k.className, e2);
    DecodeEncodeString(k.id, e3);
    DecodeEncodeString(k.nodeType, e4);
    DecodeEncodeList(k.pathFromRoot, []);
    assert e4 + [] == e4;
  }

  /** Two node keys are stored as the same string only if they are equal. */
  lemma SerInjective(a: KeyProps, b: KeyProps)
    requires Ser(a) == Ser(b)
    ensures a == b
  {
    SerRoundTrip(a);
    SerRoundTrip(b);
  }

  lemma {:induction false} EncodeDecodeString(t: string)
    requires DecodeString(t).Some?
    ensures EncodeString(DecodeString(t).value.0) + DecodeString(t).value.1 == t
  {
    if t[0] == '+' {
      EncodeDecodeString(t[2..]);
      var (s, rest) := DecodeString(t[2..]).value;
      assert EncodeString([t[1]] + s) == ['+', t[1]] + EncodeString(s) by {
        assert ([t[1]] + s)[1..] == s;
      }
      assert t == t[..2] + t[2..];
    }
  }

  lemma {:induction false} EncodeDecodeList(t: string)
    requires DecodeList(t).Some?
    ensures EncodeList(DecodeList(t).value.0) + DecodeList(t).value.1 == t
    decreases |t|
  {
    if t[0] == '+' {
      var head := DecodeString(t[1..]).value;
      var tail := DecodeList(head.1).value;
      DecodeListCons(t);
      EncodeDecodeString(t[1..]);
      EncodeDecodeList(head.1);
      EncodeListFront(t, head.0, head.1, tail.0, tail.1);
    }
  }

  /** A list that does not start with '.' is its first string, then the rest of the list. */
  lemma DecodeListCons(t: string)
    requires DecodeList(t).Some? && t[0] == '+'
    ensures DecodeString(t[1..]).Some?
    ensures var head := DecodeString(t[1..]).value;
      DecodeList(head.1).Some?
      && DecodeList(t).value == ([head.0] + DecodeList(head.1).value.0, DecodeList(head.1).value.1)
  {
  }

  /**
   * If `t` is '+', the form of `p` and then `rest`, and `rest` is the form
   * of `ps` and then `rest'`, then `t` is the form of `[p] + ps` and then `rest'`.
   */
  lemma EncodeListFront(t: string, p: string, rest: string, ps: seq<string>, rest': string)
    requires |t| >= 1 && t[0] == '+' && EncodeString(p) + rest == t[1..] && EncodeList(ps) + rest' == rest
    ensures EncodeList([p] + ps) + rest' == t
  {
    assert ([p] + ps)[0] == p;
    assert ([p] + ps)[1..] == ps;
    calc {
      EncodeList([p] + ps) + rest';
      "+" + EncodeString(p) + EncodeList(ps) + rest';
      "+" + (EncodeString(p) + (EncodeList(ps) + rest'));
      "+" + t[1..];
      t;
    }
  }

  /**
   * A string that parses as a node key is that key's serialized form, so
   * re-serializing a parsed key reproduces the stored string exactly.
   */
  lemma DeserCanonical(t: string)
    requires Deser(t).Some?
    ensures Ser(Deser(t).value) == t
  {
    var r1 := DecodeString(t);
    var r2 := DecodeString(r1.value.1);
    var r3 := DecodeString(r2.value.1);
    var r4 := DecodeString(r3.value.1);
    var r5 := DecodeList(r4.value.1);
    assert r5.value.1 == [];
    var k := Deser(t).value;
    assert k == KeyProps(r1.value.0, r2.value.0, r3.value.0, r4.value.0, r5.value.0);
    EncodeDecodeString(t);
    EncodeDecodeString(r1.value.1);
    EncodeDecodeString(r2.value.1);
    EncodeDecodeString(r3.value.1);
    EncodeDecodeList(r4.value.1);
    SerOfParts(k, t, r1.value.1, r2.value.1, r3.value.1, r4.value.1);
  }

  /** The serialized form of `k`, assembled from the forms of its fields one at a time. */
  lemma SerOfParts(k: KeyProps, t: string, t1: string, t2: string, t3: string, t4: string)
    requires t == EncodeString(k.classFullName) + t1
    requires t1 == EncodeString(k.className) + t2
    requires t2 == EncodeString(k.id) + t3
    requires t3 == EncodeString(k.nodeType) + t4
    requires t4 == EncodeList(k.pathFromRoot) + []
    ensures Ser(k) == t
  {
    assert t4 == EncodeList(k.pathFromRoot);
  }
}
