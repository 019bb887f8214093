/** Interpolated values, the typed markers the parser wraps some of them in, the
    tokens of the flat list, the parse errors, and `mapTaggedValue`. */
module Values {
  import opened Wrappers
  import opened JsText
  import opened Classify

  /** The JavaScript values a template can interpolate, as far as the parser tells
      them apart (`typeof` and `Array.isArray`). Functions and plain objects are only
      compared by identity, so an id stands for them. */
  datatype JsValue =
    | JsString(s: string)
    | JsNumber(n: int)
    | JsSymbol(description: Option<string>)
    | JsArray(elements: seq<JsValue>)
    | JsFunction(id: nat)
    | JsUndefined
    | JsObject(id: nat)

  /** `ValueTypes`, a `const enum` numbered from 0 in this order. */
  datatype ValueType = Object | Array | Function | Interpolation | Undefined

  /** `TypeMap`: a marker for a value the downstream renderer resolves. */
  datatype TypeMap = TypeMap(kind: ValueType, value: JsValue)

  /** One entry of the converter's flat list: a string (tag, comment, text or a value
      rendered as text) or a typed marker. */
  datatype Part = Str(s: string) | Marker(m: TypeMap)

  /** `AttributeMap`: attribute name to value, `None` standing for `null` (an attribute
      written without a value). */
  type AttributeMap = map<string, Option<string>>

  /** `HtmlMap`: a node of the parsed tree. `name` is `None` where the source leaves
      it `undefined`; `attributes` and `children` are `None` where the key is absent. */
  datatype HtmlNode = HtmlNode(name: Option<string>, attributes: Option<AttributeMap>,
                               children: Option<seq<Child>>)

  /** A child of a node: a nested node, a string, or a typed marker. */
  datatype Child = NodeChild(node: HtmlNode) | TextChild(text: string) | ValueChild(marker: TypeMap)

  /** The errors the parser throws. `NotAString` is the `TypeError` raised when a
      string method is called on something that is not a string. */
  datatype ParseError =
    | MissingAttributeValue
    | DuplicateAttribute(name: string)
    | MissingClosingTag
    | RootNotElement
    | NotAString

  function DigitChar(d: nat): char
    requires d < 10
  {
    "0123456789"[d]
  }

  function Digits(n: nat): (r: string)
    ensures |r| >= 1
    ensures forall k :: 0 <= k < |r| ==> '0' <= r[k] <= '9'
  {
    if n < 10 then [DigitChar(n)] else Digits(n / 10) + [DigitChar(n % 10)]
  }

  /** `String(n)` for an integer-valued number. */
  function NumberToString(n: int): string {
    if n < 0 then "-" + Digits(-n) else Digits(n)
  }

  /** `Symbol.prototype.toString`. */
  function SymbolToString(description: Option<string>): string {
    match description
    case None => "Symbol()"
    case Some(d) => "Symbol(" + d + ")"
  }

  /** The values `mapTaggedValue` renders as bare text. */
  predicate IsTextValue(v: JsValue) {
    (v.JsString? && !IsInterpolationValue(v.s)) || v.JsNumber? || v.JsSymbol?
  }

  /** The text a bare-text value becomes. */
  function TextOf(v: JsValue): string
    requires IsTextValue(v)
  {
    match v
    case JsString(s) => s
    case JsNumber(n) => NumberToString(n)
    case JsSymbol(d) => SymbolToString(d)
  }

  /** `mapTaggedValue`: plain strings, numbers and symbols become text; a placeholder
      string (`$[...]`, `$![...]`) becomes an `Interpolation` marker; arrays,
      functions, `undefined` and other objects become markers of their own kind.
      A marker always carries the original value. */
  function MapTaggedValue(v: JsValue): (r: Part)
    ensures r.Str? <==> IsTextValue(v)
    ensures r.Str? ==> r.s == TextOf(v)
    ensures r.Marker? ==> r.m.value == v
    ensures r.Marker? ==> (r.m.kind == Interpolation <==> v.JsString?)
    ensures r.Marker? ==> (r.m.kind == Array <==> v.JsArray?)
    ensures r.Marker? ==> (r.m.kind == Function <==> v.JsFunction?)
    ensures r.Marker? ==> (r.m.kind == Undefined <==> v.JsUndefined?)
    ensures r.Marker? ==> (r.m.kind == Object <==> v.JsObject?)
  {
    match v
    case JsString(s) => if IsInterpolationValue(s) then Marker(TypeMap(Interpolation, v)) else Str(s)
    case JsNumber(n) => Str(NumberToString(n))
    case JsArray(_) => Marker(TypeMap(Array, v))
    case JsSymbol(d) => Str(SymbolToString(d))
    case JsFunction(_) => Marker(TypeMap(Function, v))
    case JsUndefined => Marker(TypeMap(Undefined, v))
    case JsObject(_) => Marker(TypeMap(Object, v))
  }

  /** A number renders as its decimal digits, so it is never blank and never a
      placeholder. */
  lemma NumberTextIsPlain(n: int)
    ensures NumberToString(n) != [] && !IsWhitespace(NumberToString(n))
    ensures !IsInterpolationValue(NumberToString(n))
  {
    var r := NumberToString(n);
    var d := Digits(if n < 0 then -n else n);
    assert d[0] in "0123456789";
    if n < 0 {
      assert r[0] == '-' && r[1] == d[0];
      assert !IsJsSpace(r[1]);
    } else {
      assert r[0] == d[0];
      assert !IsJsSpace(r[0]);
    }
    IsInterpolationValueIff(r);
    assert |r| >= 2 ==> r[..2][0] == r[0];
    assert |r| >= 3 ==> r[..3][0] == r[0];
  }

  /** A string that does not start with `$` is returned as it is. */
  lemma PlainStringUnchanged(s: string)
    requires s == [] || s[0] != '$'
    ensures MapTaggedValue(JsString(s)) == Str(s)
  {
    IsInterpolationValueIff(s);
    assert |s| >= 2 ==> s[..2][0] == s[0];
    assert |s| >= 3 ==> s[..3][0] == s[0];
  }
}
