# Button class resolution and render decisions

This project models the `Button` component of the Khaojai design system
(`src/components/Button/Button.tsx`) and proves properties of that model.
The component is a pure function of its props, so the model uses datatypes,
functions and lemmas. It has no classes and no loops.

- `wrappers.dfy` (module `Wrappers`): `Option`. It stands for a prop that may be `undefined`.
- `js_array.dfy` (module `JsArray`): the two array operations the component
  uses on strings. `FilterTruthy` is `filter(Boolean)` and `Join` is `join(sep)`.
  `Join` is also proved equal to the left-to-right walk that ECMAScript's
  `Array.prototype.join` describes.
- `button.dfy` (module `Button`): the variants and sizes and their string
  names, the `variantStyles` and `sizeStyles` tables, and the base
  fragment. It also has the fixed-order fragment array and the class string it
  resolves to.
- `button_render.dfy` (module `ButtonRender`): the props object. It models
  the destructuring with defaults, the effective disabled flag, and the
  attributes of the `<button>` element with `...props` spread last. It also
  models the content slots: spinner or `leftIcon`, then `children`, then
  `rightIcon` unless loading.

Modelling choices:

- A props object is a `map<string, Value>`. A key that is absent stands for a prop that is `undefined`.
- `WellTyped` is the typing that `ButtonProps` imposes on the named props, taken as a precondition.
  `variant` and `size` must be one of the listed names. `fullWidth`, `isLoading` and `disabled` must be booleans, and `className` a string.
  `leftIcon`, `rightIcon` and `children` may hold any React node: a string, a number, a boolean, `null` or an element.
  So `<Button>Save</Button>` is the props object `{"children": Text("Save")}`.
- A boolean or `null` node renders nothing, so it produces no content piece. Every other node produces one piece carrying the value.
- Each style literal is written as a concatenation of shorter literals. The text is the same as the one literal in the source.
- Class names are opaque strings.

## Model

| member | source | states |
|---|---|---|
| `Button.VariantName` | src/components/Button/Button.tsx:5 | every variant has a non-empty name |
| `Button.VariantOf` | src/components/Button/Button.tsx:5 | a recognised string is exactly the name of the variant returned |
| `Button.VariantNameRoundTrip` | src/components/Button/Button.tsx:5 | every variant is recognised from its own name |
| `Button.SizeName` | src/components/Button/Button.tsx:7 | every size has a non-empty name |
| `Button.SizeOf` | src/components/Button/Button.tsx:7 | a recognised string is exactly the name of the size returned |
| `Button.SizeNameRoundTrip` | src/components/Button/Button.tsx:7 | every size is recognised from its own name |
| `Button.BaseStyle` | src/components/Button/Button.tsx:62-63 | the base fragment is non-empty and has no space at either end |
| `Button.VariantStyle` | src/components/Button/Button.tsx:18-29 | `variantStyles` is total: every variant gets a non-empty fragment with no space at either end |
| `Button.SizeStyle` | src/components/Button/Button.tsx:31-37 | `sizeStyles` is total: every size gets a non-empty fragment with no space at either end |
| `Button.VariantStyleInjective` | src/components/Button/Button.tsx:18-29 | different variants have different fragments |
| `Button.SizeStyleInjective` | src/components/Button/Button.tsx:31-37 | different sizes have different fragments |
| `Button.FixedFragmentsDiffer` | src/components/Button/Button.tsx:18-37 | base, variant, size and "w-full" fragments are pairwise different |
| `Button.ClassList` | src/components/Button/Button.tsx:65-71 | the array literal has five slots: base, variant and size are never empty, the fourth is non-empty exactly when `fullWidth` is set, and the fifth is `className`; `FilteredClassList` states what survives the filter |
| `Button.ResolveClasses` | src/components/Button/Button.tsx:65-73 | the class string always starts with the base fragment followed by one space |
| `Button.Fragments` | src/components/Button/Button.tsx:65-71 | three to five fragments survive, and the base fragment is first |
| `Button.FilteredClassList` | src/components/Button/Button.tsx:65-72 | filtering the array literal leaves base, variant, size, then "w-full" only if `fullWidth`, then `className` only if non-empty, in that order |
| `Button.FilterClassListOf` | src/components/Button/Button.tsx:65-72 | the same filter result for any three non-empty fixed fragments |
| `Button.ResolvedClassString` | src/components/Button/Button.tsx:62-73 | the whole class string in closed form: base, variant and size separated by one space each, then " w-full" if `fullWidth`, then " " + `className` if non-empty |
| `Button.JoinFragmentsOf` | src/components/Button/Button.tsx:73 | the join of the surviving fragments, in closed form |
| `Button.ResolvedIsJoinOfFragments` | src/components/Button/Button.tsx:65-73 | the class string is the surviving fragments, each non-empty, separated by exactly one space |
| `Button.ResolvedLength` | src/components/Button/Button.tsx:65-73 | the length of the class string: the fragment lengths plus one space per gap |
| `Button.InFragmentsOf` | src/components/Button/Button.tsx:65-72 | a string survives exactly when it is one of the fixed fragments, "w-full" with `fullWidth`, or the non-empty `className` |
| `Button.CountFullWidthOf` | src/components/Button/Button.tsx:69-72 | how often "w-full" survives, for any fixed fragments other than "w-full" |
| `Button.FullWidthFragmentCount` | src/components/Button/Button.tsx:69-72 | "w-full" survives once for `fullWidth`, and once more if `className` is "w-full" |
| `Button.FullWidthIffFlag` | src/components/Button/Button.tsx:69-72 | unless `className` is "w-full", "w-full" survives exactly when `fullWidth` is set |
| `Button.ClassNameComesLast` | src/components/Button/Button.tsx:70-73 | a non-empty `className` is the last fragment, and the string ends with a space and it |
| `Button.EmptyClassNameAddsNothing` | src/components/Button/Button.tsx:55 | an empty `className` adds nothing, and the string does not end with a space |
| `Button.NoTrailingSpaceOf` | src/components/Button/Button.tsx:69-73 | a string ending with the size fragment, or with " w-full", has no trailing space |
| `Button.OnlyTheChosenVariant` | src/components/Button/Button.tsx:67 | the chosen variant's fragment is present; another variant's fragment appears only when passed as `className` |
| `Button.OnlyTheChosenSize` | src/components/Button/Button.tsx:68 | the chosen size's fragment is present; another size's fragment appears only when passed as `className` |
| `JsArray.FilterTruthy` | src/components/Button/Button.tsx:72 | `filter(Boolean)` keeps no empty string and never lengthens the array |
| `JsArray.FilterTruthyAppend` | src/components/Button/Button.tsx:72 | filtering distributes over concatenation, so survivors keep their order |
| `JsArray.FilterTruthyCounts` | src/components/Button/Button.tsx:72 | every non-empty string survives as many times as it occurs |
| `JsArray.FilterTruthyKeepsTruthy` | src/components/Button/Button.tsx:72 | an array with no empty string is unchanged by the filter |
| `JsArray.FilterTruthyIdempotent` | src/components/Button/Button.tsx:72 | filtering twice is the same as filtering once |
| `JsArray.Join` | src/components/Button/Button.tsx:73 | `join(sep)`: with a non-empty separator the result has at least one character per gap; `JoinIsLeftToRight` ties it to the left-to-right walk, and `JoinLength`, `JoinSnoc` and `JoinEnds` state its shape |
| `JsArray.JoinLength` | src/components/Button/Button.tsx:73 | the joined length is the element lengths plus one separator per gap |
| `JsArray.JoinSnoc` | src/components/Button/Button.tsx:73 | appending an element appends the separator and that element |
| `JsArray.JoinIsLeftToRight` | src/components/Button/Button.tsx:73 | `Join` agrees with the left-to-right join walk on every array |
| `JsArray.JoinEndsWithLast` | src/components/Button/Button.tsx:73 | with two or more elements, the join ends with the separator and the last element |
| `JsArray.JoinEnds` | src/components/Button/Button.tsx:73 | a non-empty join starts with the first element and ends with the last |
| `JsArray.JoinStartsWithFirst` | src/components/Button/Button.tsx:73 | with two or more elements, the join starts with the first element and the separator |
| `ButtonRender.WellTyped` | src/components/Button/Button.tsx:3-16 | the typing constrains only the named props: any props object with none of them is well typed; `TextLabelWellTyped` shows a text label is accepted |
| `ButtonRender.TextLabelWellTyped` | src/components/Button/Button.tsx:13-15 | a text child, as in `<Button>Save</Button>`, is a well-typed props object |
| `ButtonRender.Destructure` | src/components/Button/Button.tsx:48-58 | `...props` holds exactly the props not taken out by name, with their values unchanged |
| `ButtonRender.OmittedPropsTakeDefaults` | src/components/Button/Button.tsx:49-57 | omitted props default to "primary", "md", not full width, not loading and "" (`className`); the others stay undefined |
| `ButtonRender.GivenVariantAndSizeAreRead` | src/components/Button/Button.tsx:49-50 | a given variant or size is the one the caller named |
| `ButtonRender.EffectiveDisabled` | src/components/Button/Button.tsx:79 | the element is disabled exactly when `disabled` is true or the button is loading; loading always disables |
| `ButtonRender.Leading` | src/components/Button/Button.tsx:82-105 | the leading slot holds at most one piece: the spinner exactly when loading, otherwise only a left icon |
| `ButtonRender.Trailing` | src/components/Button/Button.tsx:107 | the trailing slot holds at most one piece, a right icon, and is non-empty exactly when not loading and a right icon is given |
| `ButtonRender.Slots` | src/components/Button/Button.tsx:82-107 | at most three pieces; the spinner is present exactly when loading, and then no icon is; `LoadingSlots` and `IdleSlots` give the exact content |
| `ButtonRender.OwnAttributes` | src/components/Button/Button.tsx:78-79 | the element's own attributes are exactly a non-empty class string and a disabled flag that is set whenever the button is loading |
| `ButtonRender.Attributes` | src/components/Button/Button.tsx:76-80 | the spread comes last: every spread prop is set as given, and an explicit attribute survives only where the spread does not name it; `PassthroughCannotOverride` shows the spread never names `className` or `disabled` |
| `ButtonRender.Render` | src/components/Button/Button.tsx:75-108 | the element's attribute keys are the unnamed props plus `className` and `disabled`, and every unnamed prop is forwarded unchanged; `PassthroughCannotOverride`, `RenderedClassString`, `DisabledWhenAskedOrLoading`, `LoadingContent`, `IdleContent` and `SpinnerIffLoading` state the rest |
| `ButtonRender.ComputedAttributesStay` | src/components/Button/Button.tsx:76-80 | when `...props` holds neither key, the computed className and disabled survive the spread and every other prop is forwarded |
| `ButtonRender.PassthroughCannotOverride` | src/components/Button/Button.tsx:55-58 | the element gets the computed className and disabled flag, plus every prop that is not named, unchanged, and nothing else |
| `ButtonRender.DisabledWhenAskedOrLoading` | src/components/Button/Button.tsx:79 | the element's disabled attribute is the OR of the `disabled` and `isLoading` props |
| `ButtonRender.LoadingSlots` | src/components/Button/Button.tsx:82-107 | while loading, the content is the spinner and then the children, with no icon |
| `ButtonRender.IdleSlots` | src/components/Button/Button.tsx:82-107 | when not loading, the content is leftIcon, children and rightIcon, each if given, with no spinner |
| `ButtonRender.LoadingContent` | src/components/Button/Button.tsx:82-107 | from the props: while loading, the spinner leads, then the children, with neither icon |
| `ButtonRender.IdleContent` | src/components/Button/Button.tsx:82-107 | from the props: when not loading, the content is leftIcon, children and rightIcon, with no spinner |
| `ButtonRender.SpinnerIffLoading` | src/components/Button/Button.tsx:82-105 | the spinner is rendered if and only if `isLoading` is true |
| `ButtonRender.RenderedClassString` | src/components/Button/Button.tsx:49-78 | the element's class attribute in closed form, from the props with their defaults |
| `ButtonRender.TextLabelAlone` | src/components/Button/Button.tsx:104-107 | a text label with no icon and no loading flag is rendered as the label alone |
| `ButtonRender.LoadingHidesLeftIcon` | src/components/Button/Button.tsx:79-105 | loading with a left icon renders the spinner first, omits the icon and disables the element |

The fragment list contains "w-full" when `fullWidth` is set. It can also
contain it when the caller passes "w-full" as `className`. So the claim
"no `fullWidth`, no `w-full`" does not hold for that input, and the model
follows the code. `FullWidthFragmentCount` states the exact count, and
`FullWidthIffFlag` states the equivalence for every other `className`.

## Left out

- `React.forwardRef` and ref forwarding (lines 46, 60, 77): React machinery, not logic of the component.
- The SVG spinner markup (lines 83-102) is not modelled. The model records only that a spinner piece is present.
- What the utility classes mean, and how Tailwind resolves conflicting classes: the class names are opaque strings.
- A node is either drawn or not. An empty string child counts as drawn, and the model does not go inside a node.
- Values that are not React nodes, such as functions or plain objects passed as `children`, are ruled out by `WellTyped`.
- An explicit `undefined` prop is the same as an absent key.
- `disabled={false}` and an absent `disabled` attribute are not told apart. The element's `disabled` attribute is always the boolean `disabled || isLoading`.
- Ill-typed props, for example an unknown variant string, are excluded by `WellTyped`, which is the TypeScript type of the props. What plain JavaScript would do with them (an `undefined` table entry that the filter drops) is not modelled.
- `Button.displayName` (line 113): a debugging label.
- `src/components/Button/Button.stories.tsx`: story arguments for a different Button component, which is not part of this model.
- `src/tokens/colors.stories.tsx`: a preview page. It uses floating-point luminance and locale-dependent sorting over a colour token table and preset that are not part of this model.
- `src/index.ts`, `src/components/index.ts`, `tsup.config.ts` and `tailwind.config.ts`: re-exports and build configuration with no logic.
- `Button.FullWidthIffFlag` requires that `className` is not "w-full". Without that requirement the equivalence is false. `Button.FullWidthFragmentCount` covers every input.
