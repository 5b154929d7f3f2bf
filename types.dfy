/** The toast record, the partial update applied to it, and lazily resolved
    content ("a value, or a function of an argument producing the value"). */
module Types {

  datatype Option<+T> = None | Some(value: T) {
    function GetOr(default: T): T {
      match this
      case Some(v) => v
      case None => default
    }
  }

  /** The closed set of toast kinds. */
  datatype ToastType = Blank | Success | Error | Loading | Custom

  /** A dismissal delay: a number of milliseconds, or never. */
  datatype Duration = Finite(ms: int) | Infinite

  /** Screen anchor of a toast stack. */
  datatype Position = TopLeft | TopCenter | TopRight | BottomLeft | BottomCenter | BottomRight

  /** The accessibility pair: a role and the aria-live politeness. */
  datatype AriaProps = AriaProps(role: string, ariaLive: string)

  /** A notification as the registry holds it. Optional fields are absent
      until someone supplies them (height and position come from rendering). */
  datatype Toast = Toast(
    id: string,
    toastType: ToastType,
    message: string,
    createdAt: int,
    visible: bool,
    pauseDuration: int,
    duration: Option<Duration>,
    height: Option<int>,
    position: Option<Position>,
    ariaProps: AriaProps,
    style: Option<string>,
    className: Option<string>)

  /** A partial toast keyed by id: every field that is present and truthy
      overrides the toast's field, every other field keeps the prior value. */
  datatype Patch = Patch(
    id: string,
    toastType: Option<ToastType>,
    message: Option<string>,
    createdAt: Option<int>,
    visible: Option<bool>,
    pauseDuration: Option<int>,
    duration: Option<Duration>,
    height: Option<int>,
    position: Option<Position>,
    ariaProps: Option<AriaProps>,
    style: Option<string>,
    className: Option<string>)

  /** A supplied value counts when it is present and is not the one falsy
      value of its field's type (`falsy` is `None` for a type with none, such
      as a kind tag, a position or the accessibility object). */
  predicate Truthy<T(==)>(patched: Option<T>, falsy: Option<T>) {
    patched.Some? && Some(patched.value) != falsy
  }

  function Over<T(==)>(patched: Option<T>, falsy: Option<T>, prior: T): T {
    if Truthy(patched, falsy) then patched.value else prior
  }

  function OverOpt<T(==)>(patched: Option<T>, falsy: Option<T>, prior: Option<T>): Option<T> {
    if Truthy(patched, falsy) then patched else prior
  }

  /** Merges a patch over a toast, field by field: a truthy supplied value
      wins, and the empty string, 0, `false` and a zero duration keep the
      prior value; the id is never changed. */
  function Apply(t: Toast, p: Patch): Toast {
    Toast(
      t.id,
      Over(p.toastType, None, t.toastType),
      Over(p.message, Some(""), t.message),
      Over(p.createdAt, Some(0), t.createdAt),
      Over(p.visible, Some(false), t.visible),
      Over(p.pauseDuration, Some(0), t.pauseDuration),
      OverOpt(p.duration, Some(Finite(0)), t.duration),
      OverOpt(p.height, Some(0), t.height),
      OverOpt(p.position, None, t.position),
      Over(p.ariaProps, None, t.ariaProps),
      OverOpt(p.style, Some(""), t.style),
      OverOpt(p.className, Some(""), t.className))
  }

  /** The patch that a whole toast makes when it is spread over an older one:
      every mandatory field is present, an optional field only when the new
      toast has it. */
  function FullPatch(t: Toast): Patch {
    Patch(t.id, Some(t.toastType), Some(t.message), Some(t.createdAt), Some(t.visible),
          Some(t.pauseDuration), t.duration, t.height, t.position, Some(t.ariaProps),
          t.style, t.className)
  }

  /** The patch that changes nothing. */
  function EmptyPatch(id: string): Patch {
    Patch(id, None, None, None, None, None, None, None, None, None, None, None)
  }

  /** Applying a whole toast over an older one with the same id takes the new
      kind and accessibility pair, and every other field from the new toast
      where it is truthy and from the older one where it is not. */
  lemma FullPatchOverrides(prior: Toast, t: Toast)
    requires prior.id == t.id
    ensures var r := Apply(prior, FullPatch(t));
      r.id == t.id && r.toastType == t.toastType && r.ariaProps == t.ariaProps &&
      r.message == (if t.message != "" then t.message else prior.message) &&
      r.createdAt == (if t.createdAt != 0 then t.createdAt else prior.createdAt) &&
      r.visible == (t.visible || prior.visible) &&
      r.pauseDuration == (if t.pauseDuration != 0 then t.pauseDuration else prior.pauseDuration) &&
      r.duration == (if t.duration.Some? && t.duration.value != Finite(0) then t.duration else prior.duration) &&
      r.height == (if t.height.Some? && t.height.value != 0 then t.height else prior.height) &&
      r.position == (if t.position.Some? then t.position else prior.position) &&
      r.style == (if t.style.Some? && t.style.value != "" then t.style else prior.style) &&
      r.className == (if t.className.Some? && t.className.value != "" then t.className else prior.className)
  {
  }

  /** Every field the new toast leaves falsy or absent already has that value
      in the older toast. */
  predicate Replaces(t: Toast, prior: Toast) {
    (t.message == "" ==> prior.message == "") &&
    (t.createdAt == 0 ==> prior.createdAt == 0) &&
    (!t.visible ==> !prior.visible) &&
    (t.pauseDuration == 0 ==> prior.pauseDuration == 0) &&
    (!Truthy(t.duration, Some(Finite(0))) ==> prior.duration == t.duration) &&
    (!Truthy(t.height, Some(0)) ==> prior.height == t.height) &&
    (t.position.None? ==> prior.position.None?) &&
    (!Truthy(t.style, Some("")) ==> prior.style == t.style) &&
    (!Truthy(t.className, Some("")) ==> prior.className == t.className)
  }

  /** The merge of a whole toast is that toast exactly when nothing falsy or
      absent in it differs from the older toast. */
  lemma FullPatchReplaces(prior: Toast, t: Toast)
    requires prior.id == t.id
    ensures Apply(prior, FullPatch(t)) == t <==> Replaces(t, prior)
  {
    var r := Apply(prior, FullPatch(t));
    if r == t {
      assert r.message == t.message && r.createdAt == t.createdAt && r.visible == t.visible;
      assert r.pauseDuration == t.pauseDuration && r.duration == t.duration && r.height == t.height;
      assert r.position == t.position && r.style == t.style && r.className == t.className;
    }
  }

  /** Patching is idempotent, and the empty patch is the identity. */
  lemma ApplyIdempotent(t: Toast, p: Patch)
    ensures Apply(Apply(t, p), p) == Apply(t, p)
    ensures Apply(t, EmptyPatch(p.id)) == t
  {
  }

  /** Lazily resolved content: a literal, or a function of the argument it is
      resolved against. */
  datatype ValueOrFunction<-A, +T> = Literal(value: T) | Computed(f: A -> T)

  /** Resolves content against an argument. */
  function ResolveValue<A, T>(v: ValueOrFunction<A, T>, arg: A): (r: T)
    ensures v.Literal? ==> r == v.value
    ensures v.Computed? ==> r == v.f(arg)
  {
    match v
    case Literal(x) => x
    case Computed(f) => f(arg)
  }

  /** A literal resolves to itself whatever the argument. */
  lemma LiteralIgnoresArgument<A, T>(x: T, a: A, b: A)
    ensures ResolveValue(Literal(x), a) == x
    ensures ResolveValue(Literal(x), a) == ResolveValue(Literal(x), b)
  {
  }

  /** The function case is application, on concrete strings. */
  lemma ResolveGreeting()
    ensures ResolveValue(Computed((name: string) => "hello " + name), "toast") == "hello toast"
    ensures ResolveValue<string, string>(Literal("plain-text"), "ignored") == "plain-text"
  {
  }
}
