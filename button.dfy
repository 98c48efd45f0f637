/**
 * The Button's style resolution: two closed lookup tables (variant and size),
 * the always-applied base fragment, the optional full-width fragment and the
 * caller's `className`, assembled in that order, filtered for empty fragments
 * and joined with single spaces.
 */
module Button {
  import opened Wrappers
  import opened JsArray

  /** The accepted values of the `variant` prop. */
  datatype Variant = Primary | Secondary | Tertiary | Destructive | Ghost

  /** The accepted values of the `size` prop (`TwoXl` is "2xl"). */
  datatype Size = Sm | Md | Lg | Xl | TwoXl

  /** A fragment that can sit between single-space separators: non-empty, no space at either end. */
  predicate Trimmed(s: string) {
    s != "" && s[0] != ' ' && s[|s| - 1] != ' '
  }

  /** The string literal each variant is written as. */
  function VariantName(v: Variant): (r: string)
    ensures r != ""
  {
    match v
    case Primary => "primary"
    case Secondary => "secondary"
    case Tertiary => "tertiary"
    case Destructive => "destructive"
    case Ghost => "ghost"
  }

  /** The variant a string literal names, if any. */
  function VariantOf(s: string): (r: Option<Variant>)
    ensures r.Some? ==> VariantName(r.value) == s
  {
    if s == "primary" then Some(Primary)
    else if s == "secondary" then Some(Secondary)
    else if s == "tertiary" then Some(Tertiary)
    else if s == "destructive" then Some(Destructive)
    else if s == "ghost" then Some(Ghost)
    else None
  }

  /** Every variant is recognised by its own name. */
  lemma VariantNameRoundTrip(v: Variant)
    ensures VariantOf(VariantName(v)) == Some(v)
  {
    match v
    case Primary =>
    case Secondary =>
    case Tertiary =>
    case Destructive =>
    case Ghost =>
  }

  /** The string literal each size is written as. */
  function SizeName(s: Size): (r: string)
    ensures r != ""
  {
    match s
    case Sm => "sm"
    case Md => "md"
    case Lg => "lg"
    case Xl => "xl"
    case TwoXl => "2xl"
  }

  /** The size a string literal names, if any. */
  function SizeOf(s: string): (r: Option<Size>)
    ensures r.Some? ==> SizeName(r.value) == s
  {
    if s == "sm" then Some(Sm)
    else if s == "md" then Some(Md)
    else if s == "lg" then Some(Lg)
    else if s == "xl" then Some(Xl)
    else if s == "2xl" then Some(TwoXl)
    else None
  }

  /** Every size is recognised by its own name. */
  lemma SizeNameRoundTrip(s: Size)
    ensures SizeOf(SizeName(s)) == Some(s)
  {
    match s
    case Sm =>
    case Md =>
    case Lg =>
    case Xl =>
    case TwoXl =>
  }

  /**
   * `baseStyles`: the fragment every button carries. The literal is written
   * as a concatenation of shorter literals; the text is the same.
   */
  function BaseStyle(): (r: string)
    ensures Trimmed(r) && r[0] == 'i'
  {
    "inline-flex items-center "
    + "justify-center font-semibold "
    + "rounded-lg transition-colors "
    + "focus:outline-none "
    + "focus:ring-2 focus:ring-offset-2 "
    + "disabled:opacity-50 "
    + "disabled:cursor-not-allowed"
  }

  /** The fragment a full-width button adds. */
  const FullWidthStyle: string := "w-full"

  /** The `variantStyles` table: defined for every variant, never empty, no space at either end. */
  function VariantStyle(v: Variant): (r: string)
    ensures Trimmed(r) && r[0] == 'b'
  {
    match v
    case Primary =>
      "bg-brand-500 text-white "
      + "hover:bg-brand-600 "
      + "focus:ring-brand-500 shadow-sm"
    case Secondary =>
      "bg-white text-grayLight-700 "
      + "border border-grayLight-300 "
      + "hover:bg-grayLight-50 "
      + "focus:ring-brand-500 shadow-sm"
    case Tertiary =>
      "bg-transparent text-brand-500 "
      + "hover:bg-brand-50 "
      + "focus:ring-brand-500"
    case Destructive =>
      "bg-error-500 text-white "
      + "hover:bg-error-600 "
      + "focus:ring-error-500 shadow-sm"
    case Ghost =>
      "bg-transparent "
      + "text-grayLight-600 "
      + "hover:bg-grayLight-100 "
      + "focus:ring-grayLight-500"
  }

  /** The `sizeStyles` table: defined for every size, never empty, no space at either end. */
  function SizeStyle(s: Size): (r: string)
    ensures Trimmed(r) && r[0] == 'p'
  {
    match s
    case Sm => "px-3 py-2 text-sm gap-1.5"
    case Md => "px-3.5 py-2.5 text-sm gap-1.5"
    case Lg => "px-4 py-2.5 text-base gap-2"
    case Xl => "px-4.5 py-3 text-base gap-2"
    case TwoXl => "px-5.5 py-4 text-lg gap-2.5"
  }

  /** Distinct variants have distinct fragments, so a fragment identifies its variant. */
  lemma VariantStyleInjective(v: Variant, w: Variant)
    requires v != w
    ensures VariantStyle(v) != VariantStyle(w)
  {
    VariantStyleSignature(v);
    VariantStyleSignature(w);
  }

  /**
   * What tells the variant fragments apart: the fourth character names the
   * background colour, and the length separates the two transparent variants.
   */
  lemma VariantStyleSignature(v: Variant)
    ensures |VariantStyle(v)| == match v
      case Primary => 73 case Secondary => 108 case Tertiary => 68 case Destructive => 73 case Ghost => 81
    ensures VariantStyle(v)[3] == match v
      case Primary => 'b' case Secondary => 'w' case Tertiary => 't' case Destructive => 'e' case Ghost => 't'
  {
    match v
    case Primary =>
    case Secondary =>
    case Tertiary =>
    case Destructive =>
    case Ghost =>
  }

  /** Distinct sizes have distinct fragments, so a fragment identifies its size. */
  lemma SizeStyleInjective(s: Size, t: Size)
    requires s != t
    ensures SizeStyle(s) != SizeStyle(t)
  {
  }

  /** The base, variant, size and full-width fragments are pairwise different, whatever the variant and size. */
  lemma FixedFragmentsDiffer(v: Variant, s: Size)
    ensures BaseStyle() != VariantStyle(v) && BaseStyle() != SizeStyle(s) && VariantStyle(v) != SizeStyle(s)
    ensures BaseStyle() != FullWidthStyle && VariantStyle(v) != FullWidthStyle && SizeStyle(s) != FullWidthStyle
  {
    assert FullWidthStyle[0] == 'w';
  }

  /**
   * The array literal the Button builds, before filtering: base, variant,
   * size, "w-full" or "" for the full-width flag, and the caller's className.
   */
  function ClassList(v: Variant, s: Size, fullWidth: bool, className: string): (r: seq<string>)
    ensures |r| == 5 && r[4] == className
    ensures Truthy(r[0]) && Truthy(r[1]) && Truthy(r[2])
    ensures Truthy(r[3]) <==> fullWidth
  {
    [BaseStyle(), VariantStyle(v), SizeStyle(s), if fullWidth then FullWidthStyle else "", className]
  }

  /** `ClassList(...).filter(Boolean).join(" ")`: the button's class attribute, which starts with the base fragment and a space. */
  function ResolveClasses(v: Variant, s: Size, fullWidth: bool, className: string): (r: string)
    ensures |r| > |BaseStyle()| && r[..|BaseStyle()| + 1] == BaseStyle() + " "
  {
    FilteredClassList(v, s, fullWidth, className);
    JoinStartsWithFirst(Fragments(v, s, fullWidth, className), " ");
    Join(FilterTruthy(ClassList(v, s, fullWidth, className)), " ")
  }

  /**
   * The fragments that survive the filter, stated without it: base, variant
   * and size always; "w-full" only for a full-width button; className only
   * when it is not empty.
   */
  function Fragments(v: Variant, s: Size, fullWidth: bool, className: string): (r: seq<string>)
    ensures 3 <= |r| <= 5 && r[0] == BaseStyle()
  {
    FragmentsOf(BaseStyle(), VariantStyle(v), SizeStyle(s), fullWidth, className)
  }

  /** Fixed fragments followed by the optional ones; the shape `Fragments` has for any three fixed fragments. */
  function FragmentsOf(base: string, variant: string, size: string, fullWidth: bool, className: string): seq<string> {
    [base, variant, size]
    + (if fullWidth then [FullWidthStyle] else [])
    + (if className == "" then [] else [className])
  }

  /** Filtering the array literal leaves exactly `Fragments`, in the same order. */
  lemma FilteredClassList(v: Variant, s: Size, fullWidth: bool, className: string)
    ensures FilterTruthy(ClassList(v, s, fullWidth, className)) == Fragments(v, s, fullWidth, className)
  {
    FilterClassListOf(BaseStyle(), VariantStyle(v), SizeStyle(s), fullWidth, className);
  }

  /** The filter step for any three non-empty fixed fragments. */
  lemma FilterClassListOf(base: string, variant: string, size: string, fullWidth: bool, className: string)
    requires Truthy(base) && Truthy(variant) && Truthy(size)
    ensures FilterTruthy([base, variant, size, if fullWidth then FullWidthStyle else "", className])
      == FragmentsOf(base, variant, size, fullWidth, className)
  {
    var fixed, width := [base, variant, size], if fullWidth then FullWidthStyle else "";
    assert [base, variant, size, width, className] == fixed + [width] + [className];
    FilterTruthyAppend(fixed + [width], [className]);
    FilterTruthyAppend(fixed, [width]);
    FilterTruthyKeepsTruthy(fixed);
    assert FilterTruthy([width]) == if fullWidth then [FullWidthStyle] else [] by {
      assert [width][1..] == [];
    }
    assert FilterTruthy([className]) == if className == "" then [] else [className] by {
      assert [className][1..] == [];
    }
  }

  /**
   * The resolved class string in full: base, variant and size separated by
   * single spaces, then " w-full" for a full-width button, then a space and
   * the className when it is not empty. Nothing else, and no doubled or
   * dangling separator coming from an omitted fragment.
   */
  lemma ResolvedClassString(v: Variant, s: Size, fullWidth: bool, className: string)
    ensures ResolveClasses(v, s, fullWidth, className)
      == BaseStyle() + " " + VariantStyle(v) + " " + SizeStyle(s)
         + (if fullWidth then " " + FullWidthStyle else "")
         + (if className == "" then "" else " " + className)
  {
    FilteredClassList(v, s, fullWidth, className);
    JoinFragmentsOf(BaseStyle(), VariantStyle(v), SizeStyle(s), fullWidth, className);
  }

  /** The join step for any three fixed fragments. */
  lemma JoinFragmentsOf(base: string, variant: string, size: string, fullWidth: bool, className: string)
    ensures Join(FragmentsOf(base, variant, size, fullWidth, className), " ")
      == base + " " + variant + " " + size
         + (if fullWidth then " " + FullWidthStyle else "")
         + (if className == "" then "" else " " + className)
  {
    var fixed := [base, variant, size];
    assert fixed[1..] == [variant, size] && fixed[1..][1..] == [size];
    assert Join([variant, size], " ") == variant + " " + size;
    assert Join(fixed, " ") == base + " " + variant + " " + size;
    var withWidth := fixed + (if fullWidth then [FullWidthStyle] else []);
    if fullWidth {
      JoinSnoc(fixed, FullWidthStyle, " ");
    } else {
      assert withWidth == fixed;
    }
    if className != "" {
      JoinSnoc(withWidth, className, " ");
    } else {
      assert FragmentsOf(base, variant, size, fullWidth, className) == withWidth;
    }
  }

  /** The class string is the fragments, each non-empty, separated by exactly one space. */
  lemma ResolvedIsJoinOfFragments(v: Variant, s: Size, fullWidth: bool, className: string)
    ensures ResolveClasses(v, s, fullWidth, className) == Join(Fragments(v, s, fullWidth, className), " ")
    ensures forall i :: 0 <= i < |Fragments(v, s, fullWidth, className)| ==> Truthy(Fragments(v, s, fullWidth, className)[i])
  {
    FilteredClassList(v, s, fullWidth, className);
  }

  /** The number of characters in the class string. */
  lemma ResolvedLength(v: Variant, s: Size, fullWidth: bool, className: string)
    ensures |ResolveClasses(v, s, fullWidth, className)|
      == |BaseStyle()| + |VariantStyle(v)| + |SizeStyle(s)| + 2
         + (if fullWidth then 1 + |FullWidthStyle| else 0)
         + (if className == "" then 0 else 1 + |className|)
  {
    ResolvedClassString(v, s, fullWidth, className);
  }

  /** Which strings are fragments, for any three fixed fragments. */
  lemma InFragmentsOf(x: string, base: string, variant: string, size: string, fullWidth: bool, className: string)
    ensures x in FragmentsOf(base, variant, size, fullWidth, className)
      <==> x == base || x == variant || x == size || (fullWidth && x == FullWidthStyle) || (className != "" && x == className)
  {
  }

  /** How often "w-full" is a fragment, for any three fixed fragments other than "w-full". */
  lemma CountFullWidthOf(base: string, variant: string, size: string, fullWidth: bool, className: string)
    requires base != FullWidthStyle && variant != FullWidthStyle && size != FullWidthStyle
    ensures multiset(FragmentsOf(base, variant, size, fullWidth, className))[FullWidthStyle]
      == (if fullWidth then 1 else 0) + (if className == FullWidthStyle then 1 else 0)
  {
  }

  /** "w-full" is a fragment once for the flag, and once more if the caller passes it as className. */
  lemma FullWidthFragmentCount(v: Variant, s: Size, fullWidth: bool, className: string)
    ensures multiset(Fragments(v, s, fullWidth, className))[FullWidthStyle]
      == (if fullWidth then 1 else 0) + (if className == FullWidthStyle then 1 else 0)
  {
    FixedFragmentsDiffer(v, s);
    CountFullWidthOf(BaseStyle(), VariantStyle(v), SizeStyle(s), fullWidth, className);
  }

  /** Unless the caller names it in className, "w-full" is a fragment exactly when fullWidth is set. */
  lemma FullWidthIffFlag(v: Variant, s: Size, fullWidth: bool, className: string)
    requires className != FullWidthStyle
    ensures FullWidthStyle in Fragments(v, s, fullWidth, className) <==> fullWidth
  {
    FixedFragmentsDiffer(v, s);
    InFragmentsOf(FullWidthStyle, BaseStyle(), VariantStyle(v), SizeStyle(s), fullWidth, className);
  }

  /** A non-empty className is the last fragment, so the class string ends with a space and it. */
  lemma ClassNameComesLast(v: Variant, s: Size, fullWidth: bool, className: string)
    requires className != ""
    ensures var fs := Fragments(v, s, fullWidth, className); fs[|fs| - 1] == className
    ensures var r := ResolveClasses(v, s, fullWidth, className);
      |className| + 1 < |r| && r[|r| - |className| - 1..] == " " + className
  {
    ResolvedClassString(v, s, fullWidth, className);
    var r := ResolveClasses(v, s, fullWidth, className);
    var head := BaseStyle() + " " + VariantStyle(v) + " " + SizeStyle(s) + (if fullWidth then " " + FullWidthStyle else "");
    assert r == head + (" " + className);
  }

  /** An empty className adds nothing: the string ends with the size or "w-full" fragment, not with a space. */
  lemma EmptyClassNameAddsNothing(v: Variant, s: Size, fullWidth: bool)
    ensures ResolveClasses(v, s, fullWidth, "")
      == BaseStyle() + " " + VariantStyle(v) + " " + SizeStyle(s) + (if fullWidth then " " + FullWidthStyle else "")
    ensures var r := ResolveClasses(v, s, fullWidth, ""); r[|r| - 1] != ' '
  {
    ResolvedClassString(v, s, fullWidth, "");
    NoTrailingSpaceOf(BaseStyle() + " " + VariantStyle(v) + " ", SizeStyle(s), fullWidth);
  }

  /** Ending with a trimmed fragment, optionally followed by " w-full", leaves no space at the end. */
  lemma NoTrailingSpaceOf(head: string, size: string, fullWidth: bool)
    requires Trimmed(size)
    ensures var r := head + size + (if fullWidth then " " + FullWidthStyle else ""); r != [] && r[|r| - 1] != ' '
  {
    var r := head + size + (if fullWidth then " " + FullWidthStyle else "");
    if fullWidth {
      assert r == (head + size + " ") + FullWidthStyle;
      assert r[|r| - 1] == FullWidthStyle[|FullWidthStyle| - 1] == 'l';
    } else {
      assert r == head + size;
      assert r[|r| - 1] == size[|size| - 1];
    }
  }

  /** The variant's fragment always appears; another variant's only if the caller passes it as className. */
  lemma OnlyTheChosenVariant(v: Variant, s: Size, fullWidth: bool, className: string, w: Variant)
    ensures VariantStyle(v) in Fragments(v, s, fullWidth, className)
    ensures VariantStyle(w) in Fragments(v, s, fullWidth, className) ==> w == v || className == VariantStyle(w)
  {
    FixedFragmentsDiffer(w, s);
    InFragmentsOf(VariantStyle(w), BaseStyle(), VariantStyle(v), SizeStyle(s), fullWidth, className);
    if w != v {
      VariantStyleInjective(v, w);
    }
  }

  /** The size's fragment always appears; another size's only if the caller passes it as className. */
  lemma OnlyTheChosenSize(v: Variant, s: Size, fullWidth: bool, className: string, t: Size)
    ensures SizeStyle(s) in Fragments(v, s, fullWidth, className)
    ensures SizeStyle(t) in Fragments(v, s, fullWidth, className) ==> t == s || className == SizeStyle(t)
  {
    FixedFragmentsDiffer(v, t);
    InFragmentsOf(SizeStyle(t), BaseStyle(), VariantStyle(v), SizeStyle(s), fullWidth, className);
    if t != s {
      SizeStyleInjective(s, t);
    }
  }
}
