/**
 * What the Button renders for one props object: how the props are
 * destructured (with their defaults), which attributes the `<button>`
 * element receives (the computed class string and disabled flag, then the
 * remaining props spread over them), and which content slots appear.
 */
module ButtonRender {
  import opened Wrappers
  import opened Button

  /** A React element passed by the caller (an icon, a label); only its identity matters here. */
  datatype Node = Node(id: nat)

  /** A JavaScript value held by a prop. */
  datatype Value =
    | Text(text: string)
    | Flag(flag: bool)
    | Number(number: int)
    | Null
    | Content(node: Node)
    | Other(id: nat)  // any other value (an event handler, an object), forwarded untouched

  /** A value React accepts as a node: a string, a number, a boolean, `null` or an element. */
  predicate IsReactNode(v: Value) {
    !v.Other?
  }

  /** A node React draws something for: booleans and `null` render nothing. */
  predicate Renders(v: Value) {
    IsReactNode(v) && !v.Flag? && !v.Null?
  }

  /** A props object; a key that is absent stands for a prop that is `undefined`. */
  type Props = map<string, Value>

  /** The props the Button takes out by name; everything else is passed through to the element. */
  const NamedProps: set<string> :=
    {"variant", "size", "fullWidth", "isLoading", "leftIcon", "rightIcon", "className", "disabled", "children"}

  /**
   * The typing `ButtonProps` imposes on the named props that are given. It
   * constrains nothing else: a props object holding none of the named props
   * is well typed.
   */
  predicate WellTyped(p: Props)
    ensures p.Keys !! NamedProps ==> WellTyped(p)
  {
    && ("variant" in p ==> p["variant"].Text? && VariantOf(p["variant"].text).Some?)
    && ("size" in p ==> p["size"].Text? && SizeOf(p["size"].text).Some?)
    && ("fullWidth" in p ==> p["fullWidth"].Flag?)
    && ("isLoading" in p ==> p["isLoading"].Flag?)
    && ("disabled" in p ==> p["disabled"].Flag?)
    && ("className" in p ==> p["className"].Text?)
    && ("leftIcon" in p ==> IsReactNode(p["leftIcon"]))
    && ("rightIcon" in p ==> IsReactNode(p["rightIcon"]))
    && ("children" in p ==> IsReactNode(p["children"]))
  }

  /** The destructured props: defaults filled in, the rest collected. */
  datatype ButtonArgs = ButtonArgs(
    variant: Variant,
    size: Size,
    fullWidth: bool,
    isLoading: bool,
    leftIcon: Option<Value>,
    rightIcon: Option<Value>,
    className: string,
    disabled: Option<bool>,
    children: Option<Value>,
    rest: Props)

  /** A node prop, if it is given and renders something. */
  function NodeProp(p: Props, key: string): Option<Value>
  {
    if key in p && Renders(p[key]) then Some(p[key]) else None
  }

  /** A boolean prop with its default. */
  function FlagProp(p: Props, key: string, default: bool): bool
    requires key in p ==> p[key].Flag?
  {
    if key in p then p[key].flag else default
  }

  /**
   * The parameter list of the Button: the named props with their defaults,
   * and `...props` for the rest, which holds none of the named ones.
   */
  function Destructure(p: Props): (a: ButtonArgs)
    requires WellTyped(p)
    ensures a.rest.Keys == p.Keys - NamedProps
    ensures forall k :: k in a.rest ==> a.rest[k] == p[k]
  {
    ButtonArgs(
      variant := if "variant" in p then VariantOf(p["variant"].text).value else Primary,
      size := if "size" in p then SizeOf(p["size"].text).value else Md,
      fullWidth := FlagProp(p, "fullWidth", false),
      isLoading := FlagProp(p, "isLoading", false),
      leftIcon := NodeProp(p, "leftIcon"),
      rightIcon := NodeProp(p, "rightIcon"),
      className := if "className" in p then p["className"].text else "",
      disabled := if "disabled" in p then Some(p["disabled"].flag) else None,
      children := NodeProp(p, "children"),
      rest := p - NamedProps)
  }

  /** Omitted props take their defaults: primary, md, not full width, not loading, no className. */
  lemma OmittedPropsTakeDefaults(p: Props)
    requires WellTyped(p)
    ensures var a := Destructure(p);
      && ("variant" !in p ==> a.variant == Primary)
      && ("size" !in p ==> a.size == Md)
      && ("fullWidth" !in p ==> !a.fullWidth)
      && ("isLoading" !in p ==> !a.isLoading)
      && ("className" !in p ==> a.className == "")
      && ("disabled" !in p ==> a.disabled == None)
      && ("leftIcon" !in p ==> a.leftIcon == None)
      && ("rightIcon" !in p ==> a.rightIcon == None)
      && ("children" !in p ==> a.children == None)
  {
  }

  /** A given variant or size is the one whose name the caller wrote. */
  lemma GivenVariantAndSizeAreRead(p: Props)
    requires WellTyped(p)
    ensures "variant" in p ==> VariantName(Destructure(p).variant) == p["variant"].text
    ensures "size" in p ==> SizeName(Destructure(p).size) == p["size"].text
  {
  }

  /** `disabled || isLoading`, with an absent `disabled` read as falsy. */
  function EffectiveDisabled(disabled: Option<bool>, isLoading: bool): (r: bool)
    ensures isLoading ==> r
    ensures r <==> disabled == Some(true) || isLoading
  {
    disabled.GetOr(false) || isLoading
  }

  /** One piece of the button's content, tagged with the prop it comes from. */
  datatype Piece = Spinner | LeftIcon(node: Value) | Label(node: Value) | RightIcon(node: Value)

  /** The rendered `<button>` element: its attributes and its content, in order. */
  datatype ButtonElement = ButtonElement(attributes: Props, content: seq<Piece>)

  /** `leftIcon` as zero or one piece. */
  function LeftIconPiece(node: Option<Value>): seq<Piece> {
    if node.Some? then [LeftIcon(node.value)] else []
  }

  /** `children` as zero or one piece. */
  function LabelPiece(node: Option<Value>): seq<Piece> {
    if node.Some? then [Label(node.value)] else []
  }

  /** `rightIcon` as zero or one piece. */
  function RightIconPiece(node: Option<Value>): seq<Piece> {
    if node.Some? then [RightIcon(node.value)] else []
  }

  /** The leading slot: the spinner while loading, otherwise `leftIcon` if given. */
  function Leading(a: ButtonArgs): (r: seq<Piece>)
    ensures |r| <= 1
    ensures Spinner in r <==> a.isLoading
    ensures forall x :: x in r ==> x == Spinner || x.LeftIcon?
  {
    if a.isLoading then [Spinner] else LeftIconPiece(a.leftIcon)
  }

  /** The trailing slot: `rightIcon` if given and not loading. */
  function Trailing(a: ButtonArgs): (r: seq<Piece>)
    ensures |r| <= 1
    ensures r != [] <==> !a.isLoading && a.rightIcon.Some?
    ensures forall x :: x in r ==> x.RightIcon?
  {
    if !a.isLoading then RightIconPiece(a.rightIcon) else []
  }

  /** The content of the button: leading slot, children, trailing slot. */
  function Slots(a: ButtonArgs): (r: seq<Piece>)
    ensures |r| <= 3
    ensures Spinner in r <==> a.isLoading
    ensures a.isLoading ==> forall x :: x in r ==> !x.LeftIcon? && !x.RightIcon?
  {
    Leading(a) + LabelPiece(a.children) + Trailing(a)
  }

  /** The element's own attributes, before the passthrough props are spread over them. */
  function OwnAttributes(a: ButtonArgs): (r: Props)
    ensures r.Keys == {"className", "disabled"}
    ensures r["className"].Text? && r["className"].text != ""
    ensures r["disabled"].Flag? && (a.isLoading ==> r["disabled"].flag)
  {
    map[
      "className" := Text(ResolveClasses(a.variant, a.size, a.fullWidth, a.className)),
      "disabled" := Flag(EffectiveDisabled(a.disabled, a.isLoading))]
  }

  /**
   * An element's attribute object when the explicit attributes `own` are
   * followed by a spread of `rest`: every spread attribute is set, and an
   * explicit one survives only where the spread does not name it.
   */
  function Attributes(own: Props, rest: Props): (r: Props)
    ensures r.Keys == own.Keys + rest.Keys
    ensures forall k :: k in rest ==> r[k] == rest[k]
    ensures forall k :: k in own && k !in rest ==> r[k] == own[k]
  {
    own + rest
  }

  /** The Button: `<button className=… disabled=… {...props}>` around its content. */
  function Render(p: Props): (e: ButtonElement)
    requires WellTyped(p)
    ensures e.attributes.Keys == (p.Keys - NamedProps) + {"className", "disabled"}
    ensures forall k :: k in p && k !in NamedProps ==> e.attributes[k] == p[k]
  {
    var a := Destructure(p);
    assert "className" in NamedProps && "disabled" in NamedProps;
    ComputedAttributesStay(a);
    ButtonElement(Attributes(OwnAttributes(a), a.rest), Slots(a))
  }

  /** What `Render` is made of: the attributes and the slots of the destructured props. */
  lemma RenderParts(p: Props)
    requires WellTyped(p)
    ensures Render(p).attributes == Attributes(OwnAttributes(Destructure(p)), Destructure(p).rest)
    ensures Render(p).content == Slots(Destructure(p))
  {
  }

  /** When the passthrough props hold neither "className" nor "disabled", the computed values stay. */
  lemma ComputedAttributesStay(a: ButtonArgs)
    requires "className" !in a.rest && "disabled" !in a.rest
    ensures Attributes(OwnAttributes(a), a.rest).Keys == a.rest.Keys + {"className", "disabled"}
    ensures Attributes(OwnAttributes(a), a.rest)["className"] == Text(ResolveClasses(a.variant, a.size, a.fullWidth, a.className))
    ensures Attributes(OwnAttributes(a), a.rest)["disabled"] == Flag(EffectiveDisabled(a.disabled, a.isLoading))
    ensures forall k :: k in a.rest ==> Attributes(OwnAttributes(a), a.rest)[k] == a.rest[k]
  {
  }

  /**
   * The passthrough props cannot override the computed class string or
   * disabled flag: both are taken out of the props by name before the
   * rest is spread. Every other prop reaches the element unchanged, and
   * no other named prop does.
   */
  lemma PassthroughCannotOverride(p: Props)
    requires WellTyped(p)
    ensures var a, attrs := Destructure(p), Render(p).attributes;
      && attrs.Keys == (p.Keys - NamedProps) + {"className", "disabled"}
      && attrs["className"] == Text(ResolveClasses(a.variant, a.size, a.fullWidth, a.className))
      && attrs["disabled"] == Flag(EffectiveDisabled(a.disabled, a.isLoading))
    ensures forall k :: k in p && k !in NamedProps ==> k in Render(p).attributes && Render(p).attributes[k] == p[k]
  {
    RenderParts(p);
    var a := Destructure(p);
    assert "className" in NamedProps && "disabled" in NamedProps;
    ComputedAttributesStay(a);
  }

  /** The element is disabled exactly when the caller disables it or it is loading. */
  lemma DisabledWhenAskedOrLoading(p: Props)
    requires WellTyped(p)
    ensures "disabled" in Render(p).attributes
    ensures Render(p).attributes["disabled"]
      == Flag(("disabled" in p && p["disabled"].flag) || ("isLoading" in p && p["isLoading"].flag))
  {
    PassthroughCannotOverride(p);
  }

  /** The slots while loading: the spinner, then the children; no icon. */
  lemma LoadingSlots(a: ButtonArgs)
    requires a.isLoading
    ensures Slots(a) == [Spinner] + LabelPiece(a.children)
    ensures forall x :: x in Slots(a) ==> !x.LeftIcon? && !x.RightIcon?
  {
  }

  /** The slots when not loading: leftIcon, children, rightIcon, each if given; no spinner. */
  lemma IdleSlots(a: ButtonArgs)
    requires !a.isLoading
    ensures Slots(a) == LeftIconPiece(a.leftIcon) + LabelPiece(a.children) + RightIconPiece(a.rightIcon)
    ensures Spinner !in Slots(a)
  {
  }

  /** While loading, the spinner leads, then the children; neither icon is rendered. */
  lemma LoadingContent(p: Props)
    requires WellTyped(p) && "isLoading" in p && p["isLoading"].flag
    ensures Render(p).content == [Spinner] + LabelPiece(NodeProp(p, "children"))
    ensures forall x :: x in Render(p).content ==> !x.LeftIcon? && !x.RightIcon?
  {
    RenderParts(p);
    LoadingSlots(Destructure(p));
  }

  /** When not loading: leftIcon, children, rightIcon, each if given, and no spinner. */
  lemma IdleContent(p: Props)
    requires WellTyped(p) && !("isLoading" in p && p["isLoading"].flag)
    ensures Render(p).content
      == LeftIconPiece(NodeProp(p, "leftIcon")) + LabelPiece(NodeProp(p, "children")) + RightIconPiece(NodeProp(p, "rightIcon"))
    ensures Spinner !in Render(p).content
  {
    RenderParts(p);
    IdleSlots(Destructure(p));
  }

  /** A plain text label, as in `<Button>Save</Button>`, is a well-typed props object. */
  lemma TextLabelWellTyped(caption: string)
    ensures WellTyped(map["children" := Text(caption)])
  {
  }

  /** A text label with no icon and no loading flag is rendered as the label alone. */
  lemma TextLabelAlone(p: Props, caption: string)
    requires WellTyped(p)
    requires "children" in p && p["children"] == Text(caption)
    requires "isLoading" !in p && "leftIcon" !in p && "rightIcon" !in p
    ensures Render(p).content == [Label(Text(caption))]
  {
    IdleContent(p);
  }

  /** The spinner is shown exactly when the button is loading. */
  lemma SpinnerIffLoading(p: Props)
    requires WellTyped(p)
    ensures Spinner in Render(p).content <==> "isLoading" in p && p["isLoading"].flag
  {
    if "isLoading" in p && p["isLoading"].flag {
      LoadingContent(p);
    } else {
      IdleContent(p);
    }
  }

  /**
   * The class attribute in full, from the props: the base fragment, the
   * fragments of the given (or default) variant and size, " w-full" when
   * `fullWidth` is set, and the given className after a space when it is
   * not empty.
   */
  lemma RenderedClassString(p: Props)
    requires WellTyped(p)
    ensures var a := Destructure(p);
      Render(p).attributes["className"] == Text(
        BaseStyle() + " " + VariantStyle(a.variant) + " " + SizeStyle(a.size)
        + (if FlagProp(p, "fullWidth", false) then " " + FullWidthStyle else "")
        + (if "className" in p && p["className"].text != "" then " " + p["className"].text else ""))
  {
    PassthroughCannotOverride(p);
    var a := Destructure(p);
    ResolvedClassString(a.variant, a.size, a.fullWidth, a.className);
  }

  /** Loading with a left icon: the spinner replaces the icon and the element is disabled. */
  lemma LoadingHidesLeftIcon(p: Props, icon: Value)
    requires WellTyped(p)
    requires "isLoading" in p && p["isLoading"] == Flag(true)
    requires "leftIcon" in p && p["leftIcon"] == icon
    ensures Render(p).content[0] == Spinner
    ensures LeftIcon(icon) !in Render(p).content
    ensures Render(p).attributes["disabled"] == Flag(true)
  {
    LoadingContent(p);
    DisabledWhenAskedOrLoading(p);
  }
}
