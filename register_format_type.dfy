/**
 * Registration of a rich-text format type: an ordered chain of guards over
 * the format's settings and the registry's current contents. The first
 * guard that fails decides the outcome and the registry is left as it was;
 * when every guard passes, the settings are added to the registry and
 * returned.
 */
module FormatRegistration {
  import opened Wrappers
  import opened FormatNames

  /** The JavaScript values the guards tell apart; only an array's length matters here. */
  datatype JsValue = Undefined | Null | Str(s: string) | Array(length: nat) | OtherValue

  /** A format's settings object; a field is None when the object has no such key. */
  datatype Settings = Settings(
    name: Option<JsValue>,
    tagName: Option<JsValue>,
    className: Option<JsValue>,
    title: Option<JsValue>,
    keywords: Option<JsValue>)

  /** Reading a property: a missing key reads as `undefined`. */
  function Get(p: Option<JsValue>): JsValue
  {
    match p
    case None => Undefined
    case Some(v) => v
  }

  /** `{ name, ...settings }`: a `name` key in the settings wins over the argument. */
  function MergeName(name: JsValue, settings: Settings): (r: Settings)
    ensures r.name.Some?
    ensures settings.name.Some? ==> r == settings
    ensures settings.name.None? ==> r == settings.(name := Some(name))
  {
    if settings.name.Some? then settings else settings.(name := Some(name))
  }

  /** Why a registration was refused, one per guard, in the order they are checked. */
  datatype FormatError =
    | NameNotString
    | InvalidName
    | AlreadyRegistered
    | InvalidTagName
    | InvalidClassNameType
    | InvalidClassName
    | BareElementTaken(owner: string)
    | ClassNameTaken(owner: string)
    | MissingTitle
    | KeywordsUnreadable
    | TooManyKeywords
    | TitleNotString

  /**
   * What the guards see of the registry: the formats by name, and which
   * format handles each class name and each bare tag name.
   */
  datatype Store = Store(formats: map<string, Settings>, classHandlers: map<string, string>, bareHandlers: map<string, string>)

  /** The text a pattern test reads from a class name that is a string or `null`. */
  function ClassNameText(v: JsValue): string
  {
    match v
    case Str(s) => s
    case _ => "null"
  }

  /** `keywords.length > 3` on a value that has a length; other values have none. */
  function KeywordsOverLimit(v: JsValue): bool
  {
    match v
    case Str(s) => |s| > 3
    case Array(n) => n > 3
    case _ => false
  }

  /**
   * The guard chain. The checks run in this order: name is a string, name
   * matches the pattern, name is free, tag name is a non-empty string, class
   * name is a non-empty string or null, class name matches the pattern, the
   * bare tag (class name null) or the class name is not handled yet, title
   * is present and not empty, keywords (when present) are readable and at
   * most three, title is a string.
   */
  function Validate(name: JsValue, settings: Settings, store: Store): (r: Result<Settings, FormatError>)
    ensures r.Success? ==> r.value == MergeName(name, settings) && Get(r.value.name).Str?
    ensures r.Success? ==> WellFormed(r.value) && Unclaimed(r.value, store)
  {
    var s := MergeName(name, settings);
    var nm := Get(s.name);
    var tag := Get(s.tagName);
    var cls := Get(s.className);
    if !nm.Str? then Failure(NameNotString)
    else if !MatchesFormatName(nm.s) then Failure(InvalidName)
    else if nm.s in store.formats then Failure(AlreadyRegistered)
    else if !tag.Str? || tag.s == "" then Failure(InvalidTagName)
    else if (!cls.Str? || cls.s == "") && !cls.Null? then Failure(InvalidClassNameType)
    else if !MatchesClassName(ClassNameText(cls)) then Failure(InvalidClassName)
    else if cls.Null? && tag.s in store.bareHandlers then Failure(BareElementTaken(store.bareHandlers[tag.s]))
    else if cls.Str? && cls.s in store.classHandlers then Failure(ClassNameTaken(store.classHandlers[cls.s]))
    else if s.title.None? || s.title == Some(Str("")) then Failure(MissingTitle)
    else if s.keywords.Some? && (Get(s.keywords).Undefined? || Get(s.keywords).Null?) then Failure(KeywordsUnreadable)
    else if s.keywords.Some? && KeywordsOverLimit(Get(s.keywords)) then Failure(TooManyKeywords)
    else if !Get(s.title).Str? then Failure(TitleNotString)
    else
      MatchesFormatNameExactly(nm.s);
      MatchesClassNameExactly(ClassNameText(cls));
      Success(s)
  }

  /** The shape every accepted format has. */
  ghost predicate WellFormed(f: Settings)
  {
    && Get(f.name).Str? && FormatNameShape(Get(f.name).s)
    && Get(f.tagName).Str? && Get(f.tagName).s != ""
    && (Get(f.className).Null? || (Get(f.className).Str? && ClassNameShape(Get(f.className).s)))
    && Get(f.title).Str? && Get(f.title).s != ""
    && (f.keywords.Some? ==> !Get(f.keywords).Undefined? && !Get(f.keywords).Null? && !KeywordsOverLimit(Get(f.keywords)))
  }

  /** Neither the name nor the handled element of `f` is taken in `store`. */
  ghost predicate Unclaimed(f: Settings, store: Store)
  {
    && Get(f.name).Str? && Get(f.name).s !in store.formats
    && (Get(f.className).Null? && Get(f.tagName).Str? ==> Get(f.tagName).s !in store.bareHandlers)
    && (Get(f.className).Str? ==> Get(f.className).s !in store.classHandlers)
  }

  /** The guards of the chain, in the order they are checked. */
  datatype Guard =
    | NameIsString | NameMatches | NameFree | TagNameValid | ClassNameType
    | ClassNameMatches | HandlerFree | TitlePresent | KeywordsValid | TitleIsString

  function Rank(g: Guard): nat
  {
    match g
    case NameIsString => 0
    case NameMatches => 1
    case NameFree => 2
    case TagNameValid => 3
    case ClassNameType => 4
    case ClassNameMatches => 5
    case HandlerFree => 6
    case TitlePresent => 7
    case KeywordsValid => 8
    case TitleIsString => 9
  }

  /** The guard each refusal reports. */
  function GuardOf(e: FormatError): Guard
  {
    match e
    case NameNotString => NameIsString
    case InvalidName => NameMatches
    case AlreadyRegistered => NameFree
    case InvalidTagName => TagNameValid
    case InvalidClassNameType => ClassNameType
    case InvalidClassName => ClassNameMatches
    case BareElementTaken(_) => HandlerFree
    case ClassNameTaken(_) => HandlerFree
    case MissingTitle => TitlePresent
    case KeywordsUnreadable => KeywordsValid
    case TooManyKeywords => KeywordsValid
    case TitleNotString => TitleIsString
  }

  /** What each guard demands of the merged settings, stated with the patterns' shapes. */
  ghost predicate Passes(g: Guard, s: Settings, store: Store)
  {
    var nm, tag, cls := Get(s.name), Get(s.tagName), Get(s.className);
    match g
    case NameIsString => nm.Str?
    case NameMatches => nm.Str? ==> FormatNameShape(nm.s)
    case NameFree => nm.Str? ==> nm.s !in store.formats
    case TagNameValid => tag.Str? && tag.s != ""
    case ClassNameType => cls.Null? || (cls.Str? && cls.s != "")
    case ClassNameMatches => ClassNameShape(ClassNameText(cls))
    case HandlerFree =>
      && (cls.Null? && tag.Str? ==> tag.s !in store.bareHandlers)
      && (cls.Str? ==> cls.s !in store.classHandlers)
    case TitlePresent => s.title.Some? && s.title != Some(Str(""))
    case KeywordsValid =>
      s.keywords.Some? ==> !Get(s.keywords).Undefined? && !Get(s.keywords).Null? && !KeywordsOverLimit(Get(s.keywords))
    case TitleIsString => Get(s.title).Str?
  }

  /** The chain accepts exactly when every guard passes. */
  lemma ValidateAcceptsWhenGuardsPass(name: JsValue, settings: Settings, store: Store)
    ensures Validate(name, settings, store).Success? <==> forall g :: Passes(g, MergeName(name, settings), store)
  {
    if Validate(name, settings, store).Success? {
      AcceptedPassesEveryGuard(name, settings, store);
    } else {
      ReportedGuardFails(name, settings, store);
    }
  }

  lemma AcceptedPassesEveryGuard(name: JsValue, settings: Settings, store: Store)
    requires Validate(name, settings, store).Success?
    ensures forall g :: Passes(g, MergeName(name, settings), store)
  {
    var s := MergeName(name, settings);
    MatchesFormatNameExactly(Get(s.name).s);
    MatchesClassNameExactly(ClassNameText(Get(s.className)));
  }

  /** A refusal names a guard that fails while every earlier guard passes. */
  lemma ValidateReportsFirstFailure(name: JsValue, settings: Settings, store: Store)
    requires Validate(name, settings, store).Failure?
    ensures var s, e := MergeName(name, settings), Validate(name, settings, store).error;
      && !Passes(GuardOf(e), s, store)
      && forall g :: Rank(g) < Rank(GuardOf(e)) ==> Passes(g, s, store)
  {
    ReportedGuardFails(name, settings, store);
    EarlierGuardsPass(name, settings, store);
  }

  /** A handler conflict names the format that already handles the element, whatever the store. */
  lemma ConflictNamesOwner(name: JsValue, settings: Settings, store: Store)
    requires Validate(name, settings, store).Failure?
    ensures var s, e := MergeName(name, settings), Validate(name, settings, store).error;
      && (e.BareElementTaken? ==>
            Get(s.className).Null? && Get(s.tagName).Str? && Get(s.tagName).s in store.bareHandlers
            && e.owner == store.bareHandlers[Get(s.tagName).s])
      && (e.ClassNameTaken? ==>
            Get(s.className).Str? && Get(s.className).s in store.classHandlers
            && e.owner == store.classHandlers[Get(s.className).s])
  {
  }

  /**
   * The two keyword refusals are told apart: reading `length` of a null or
   * undefined `keywords` is refused as unreadable, while a readable value
   * longer than three is refused as too many keywords.
   */
  lemma KeywordRefusalsNameTheirCause(name: JsValue, settings: Settings, store: Store)
    requires Validate(name, settings, store).Failure?
    ensures var s, e := MergeName(name, settings), Validate(name, settings, store).error;
      && (e == KeywordsUnreadable ==> s.keywords.Some? && (Get(s.keywords).Undefined? || Get(s.keywords).Null?))
      && (e == TooManyKeywords ==>
            s.keywords.Some? && !Get(s.keywords).Undefined? && !Get(s.keywords).Null?
            && KeywordsOverLimit(Get(s.keywords)))
  {
  }

  lemma ReportedGuardFails(name: JsValue, settings: Settings, store: Store)
    requires Validate(name, settings, store).Failure?
    ensures !Passes(GuardOf(Validate(name, settings, store).error), MergeName(name, settings), store)
  {
    var s, e := MergeName(name, settings), Validate(name, settings, store).error;
    var nm, tag, cls := Get(s.name), Get(s.tagName), Get(s.className);
    if !nm.Str? {
      assert e == NameNotString;
    } else if !MatchesFormatName(nm.s) {
      assert e == InvalidName;
      MatchesFormatNameExactly(nm.s);
    } else if nm.s in store.formats {
      assert e == AlreadyRegistered;
    } else if !tag.Str? || tag.s == "" {
      assert e == InvalidTagName;
    } else if (!cls.Str? || cls.s == "") && !cls.Null? {
      assert e == InvalidClassNameType;
    } else if !MatchesClassName(ClassNameText(cls)) {
      assert e == InvalidClassName;
      MatchesClassNameExactly(ClassNameText(cls));
    }
  }

  lemma EarlierGuardsPass(name: JsValue, settings: Settings, store: Store)
    requires Validate(name, settings, store).Failure?
    ensures forall g :: Rank(g) < Rank(GuardOf(Validate(name, settings, store).error)) ==>
      Passes(g, MergeName(name, settings), store)
  {
    var s, e := MergeName(name, settings), Validate(name, settings, store).error;
    if Rank(GuardOf(e)) > Rank(NameMatches) {
      MatchesFormatNameExactly(Get(s.name).s);
    }
    if Rank(GuardOf(e)) > Rank(ClassNameMatches) {
      MatchesClassNameExactly(ClassNameText(Get(s.className)));
    }
    forall g | Rank(g) < Rank(GuardOf(e)) ensures Passes(g, s, store) {
    }
  }

  lemma AllGuardsPass(s: Settings, store: Store)
    requires forall g :: Passes(g, s, store)
    ensures Passes(NameIsString, s, store) && Passes(NameMatches, s, store) && Passes(NameFree, s, store)
    ensures Passes(TagNameValid, s, store) && Passes(ClassNameType, s, store) && Passes(ClassNameMatches, s, store)
    ensures Passes(HandlerFree, s, store) && Passes(TitlePresent, s, store) && Passes(KeywordsValid, s, store)
    ensures Passes(TitleIsString, s, store)
  {
  }

  /** The guards together demand exactly a well-formed, unclaimed format. */
  lemma GuardsMeanWellFormedAndUnclaimed(s: Settings, store: Store)
    ensures (forall g :: Passes(g, s, store)) <==> WellFormed(s) && Unclaimed(s, store)
  {
    if WellFormed(s) && Get(s.className).Null? {
      NullTextPassesClassNameTest();
      MatchesClassNameExactly("null");
    }
    if forall g :: Passes(g, s, store) {
      AllGuardsPass(s, store);
    }
  }

  /** The entry a successful registration adds to the store. */
  function AddFormat(store: Store, f: Settings): (r: Store)
    requires Get(f.name).Str?
    ensures r.formats == store.formats[Get(f.name).s := f]
    ensures Get(f.className).Str? ==> r.classHandlers == store.classHandlers[Get(f.className).s := Get(f.name).s]
    ensures !Get(f.className).Str? ==> r.classHandlers == store.classHandlers
    ensures Get(f.className).Null? && Get(f.tagName).Str? ==> r.bareHandlers == store.bareHandlers[Get(f.tagName).s := Get(f.name).s]
    ensures !(Get(f.className).Null? && Get(f.tagName).Str?) ==> r.bareHandlers == store.bareHandlers
  {
    var n := Get(f.name).s;
    var cls, tag := Get(f.className), Get(f.tagName);
    Store(store.formats[n := f],
          if cls.Str? then store.classHandlers[cls.s := n] else store.classHandlers,
          if cls.Null? && tag.Str? then store.bareHandlers[tag.s := n] else store.bareHandlers)
  }

  /** Each format is well formed and stored under its own name. */
  ghost predicate FormatsValid(store: Store)
  {
    forall n :: n in store.formats ==> WellFormed(store.formats[n]) && Get(store.formats[n].name) == Str(n)
  }

  /** Every class-name handler entry points at a format with that class name. */
  ghost predicate ClassHandlersSound(store: Store)
  {
    forall c :: c in store.classHandlers ==>
      store.classHandlers[c] in store.formats && Get(store.formats[store.classHandlers[c]].className) == Str(c)
  }

  /** Every bare-tag handler entry points at a format with class name null and that tag. */
  ghost predicate BareHandlersSound(store: Store)
  {
    forall t :: t in store.bareHandlers ==>
      && store.bareHandlers[t] in store.formats
      && Get(store.formats[store.bareHandlers[t]].className) == Null
      && Get(store.formats[store.bareHandlers[t]].tagName) == Str(t)
  }

  /** Every format is the recorded handler of its class name, or of its bare tag when its class name is null. */
  ghost predicate HandlersComplete(store: Store)
  {
    && (forall n :: n in store.formats && Get(store.formats[n].className).Str? ==>
          Get(store.formats[n].className).s in store.classHandlers
          && store.classHandlers[Get(store.formats[n].className).s] == n)
    && (forall n :: n in store.formats && Get(store.formats[n].className).Null? ==>
          Get(store.formats[n].tagName).Str?
          && Get(store.formats[n].tagName).s in store.bareHandlers
          && store.bareHandlers[Get(store.formats[n].tagName).s] == n)
  }

  /**
   * The store's handler maps agree with its formats: a format handles its
   * class name (or, with class name null, its bare tag name) exactly when
   * the handler map says so.
   */
  ghost predicate Consistent(store: Store)
  {
    FormatsValid(store) && ClassHandlersSound(store) && BareHandlersSound(store) && HandlersComplete(store)
  }

  /** Adding a well-formed format whose name and handled element are free keeps the store consistent. */
  lemma AddFormatKeepsConsistent(store: Store, f: Settings)
    requires Consistent(store)
    requires WellFormed(f) && Unclaimed(f, store)
    ensures Consistent(AddFormat(store, f))
  {
    AddKeepsFormatsValid(store, f);
    AddKeepsClassHandlersSound(store, f);
    AddKeepsBareHandlersSound(store, f);
    AddKeepsHandlersComplete(store, f);
  }

  lemma AddKeepsFormatsValid(store: Store, f: Settings)
    requires FormatsValid(store) && WellFormed(f)
    ensures FormatsValid(AddFormat(store, f))
  {
  }

  lemma AddKeepsClassHandlersSound(store: Store, f: Settings)
    requires ClassHandlersSound(store) && WellFormed(f) && Unclaimed(f, store)
    ensures ClassHandlersSound(AddFormat(store, f))
  {
    var r, n := AddFormat(store, f), Get(f.name).s;
    forall c | c in r.classHandlers
      ensures r.classHandlers[c] in r.formats && Get(r.formats[r.classHandlers[c]].className) == Str(c)
    {
      if Get(f.className) != Str(c) {
        assert r.classHandlers[c] == store.classHandlers[c] != n;
      }
    }
  }

  lemma AddKeepsBareHandlersSound(store: Store, f: Settings)
    requires BareHandlersSound(store) && WellFormed(f) && Unclaimed(f, store)
    ensures BareHandlersSound(AddFormat(store, f))
  {
    var r, n := AddFormat(store, f), Get(f.name).s;
    forall t | t in r.bareHandlers
      ensures && r.bareHandlers[t] in r.formats
              && Get(r.formats[r.bareHandlers[t]].className) == Null
              && Get(r.formats[r.bareHandlers[t]].tagName) == Str(t)
    {
      if !(Get(f.className).Null? && Get(f.tagName) == Str(t)) {
        assert r.bareHandlers[t] == store.bareHandlers[t] != n;
      }
    }
  }

  lemma AddKeepsHandlersComplete(store: Store, f: Settings)
    requires HandlersComplete(store) && FormatsValid(store) && ClassHandlersSound(store) && BareHandlersSound(store)
    requires WellFormed(f) && Unclaimed(f, store)
    ensures HandlersComplete(AddFormat(store, f))
  {
    var r, n := AddFormat(store, f), Get(f.name).s;
    forall m | m in r.formats && Get(r.formats[m].className).Str?
      ensures Get(r.formats[m].className).s in r.classHandlers && r.classHandlers[Get(r.formats[m].className).s] == m
    {
      if m != n {
        var c := Get(store.formats[m].className).s;
        assert store.classHandlers[c] == m;
      }
    }
    forall m | m in r.formats && Get(r.formats[m].className).Null?
      ensures Get(r.formats[m].tagName).Str?
              && Get(r.formats[m].tagName).s in r.bareHandlers && r.bareHandlers[Get(r.formats[m].tagName).s] == m
    {
      if m != n {
        var t := Get(store.formats[m].tagName).s;
        assert store.bareHandlers[t] == m;
      }
    }
  }

  /** In a consistent store no two formats handle the same class name or the same bare tag name. */
  lemma HandlersAreUnique(store: Store, a: string, b: string)
    requires Consistent(store)
    requires a in store.formats && b in store.formats
    requires var fa, fb := store.formats[a], store.formats[b];
      || (Get(fa.className).Str? && Get(fa.className) == Get(fb.className))
      || (Get(fa.className).Null? && Get(fb.className).Null? && Get(fa.tagName) == Get(fb.tagName))
    ensures a == b
  {
  }

  /** Once a format is registered, registering any settings under the same name is refused. */
  lemma SecondRegistrationRefused(name: JsValue, settings: Settings, again: Settings, store: Store)
    requires Validate(name, settings, store).Success?
    requires MergeName(name, again).name == MergeName(name, settings).name
    ensures Validate(name, again, AddFormat(store, Validate(name, settings, store).value)) == Failure(AlreadyRegistered)
  {
    MatchesFormatNameExactly(Get(MergeName(name, settings).name).s);
  }

  /**
   * Once a format with a class name is registered, another format with that
   * class name (and a fresh, valid name and tag) is refused, naming the owner.
   */
  lemma ClassNameClaimRefused(name: JsValue, settings: Settings, other: JsValue, again: Settings, store: Store)
    requires Validate(name, settings, store).Success?
    requires Get(MergeName(name, settings).className).Str?
    requires var s2 := MergeName(other, again);
      && Get(s2.name).Str? && MatchesFormatName(Get(s2.name).s)
      && Get(s2.name) != Get(MergeName(name, settings).name) && Get(s2.name).s !in store.formats
      && Get(s2.tagName).Str? && Get(s2.tagName).s != ""
      && Get(s2.className) == Get(MergeName(name, settings).className)
    ensures var f := Validate(name, settings, store).value;
      Validate(other, again, AddFormat(store, f)) == Failure(ClassNameTaken(Get(f.name).s))
  {
    var f := Validate(name, settings, store).value;
    MatchesClassNameExactly(Get(f.className).s);
  }

  /**
   * Once a format with class name null is registered for a tag name, another
   * otherwise valid bare format for that tag is refused, naming the first.
   */
  lemma BareElementClaimRefused(name: JsValue, settings: Settings, other: JsValue, again: Settings, store: Store)
    requires Validate(name, settings, store).Success?
    requires Get(MergeName(name, settings).className).Null?
    requires var s2 := MergeName(other, again);
      && Get(s2.name).Str? && MatchesFormatName(Get(s2.name).s)
      && Get(s2.name) != Get(MergeName(name, settings).name) && Get(s2.name).s !in store.formats
      && Get(s2.tagName) == Get(MergeName(name, settings).tagName)
      && Get(s2.className).Null?
    ensures var f := Validate(name, settings, store).value;
      Validate(other, again, AddFormat(store, f)) == Failure(BareElementTaken(Get(f.name).s))
  {
    NullTextPassesClassNameTest();
  }

  /**
   * The registry of format types. Its three maps only ever change together,
   * through a registration that passed every guard.
   */
  class FormatRegistry {
    var formats: map<string, Settings>
    var classHandlers: map<string, string>
    var bareHandlers: map<string, string>

    function Contents(): Store
      reads this
    {
      Store(formats, classHandlers, bareHandlers)
    }

    ghost predicate Valid()
      reads this
    {
      Consistent(Contents())
    }

    constructor ()
      ensures Valid()
      ensures formats == map[] && classHandlers == map[] && bareHandlers == map[]
    {
      formats, classHandlers, bareHandlers := map[], map[], map[];
    }

    /**
     * Registers a format under `name` (overridden by a `name` key in the
     * settings). On success the merged settings are stored and returned; on
     * the first failing guard the reason is returned and nothing changes.
     */
    method Register(name: JsValue, settings: Settings) returns (result: Result<Settings, FormatError>)
      requires Valid()
      modifies this
      ensures Valid()
      ensures result == Validate(name, settings, old(Contents()))
      ensures result.Failure? ==> Contents() == old(Contents())
      ensures result.Success? ==> Contents() == AddFormat(old(Contents()), result.value)
      ensures result.Success? ==> Get(result.value.name).s in formats && formats[Get(result.value.name).s] == result.value
    {
      var before := Contents();
      result := Validate(name, settings, before);
      if result.Success? {
        var f := result.value;
        AddFormatKeepsConsistent(before, f);
        var store := AddFormat(before, f);
        assert store.formats[Get(f.name).s] == f;
        formats, classHandlers, bareHandlers := store.formats, store.classHandlers, store.bareHandlers;
        assert Contents() == store;
      }
    }

    /** The format registered under `name`, if any. */
    method GetFormatType(name: string) returns (r: Option<Settings>)
      requires Valid()
      ensures r.Some? <==> name in formats
      ensures r.Some? ==> r.value == formats[name] && Get(r.value.name) == Str(name)
    {
      r := if name in formats then Some(formats[name]) else None;
    }

    /** The format that handles bare `tagName` elements (class name null), if any. */
    method GetFormatTypeForBareElement(tagName: string) returns (r: Option<Settings>)
      requires Valid()
      ensures r.Some? <==> exists n :: n in formats && Get(formats[n].className).Null? && Get(formats[n].tagName) == Str(tagName)
      ensures r.Some? ==> Get(r.value.className).Null? && Get(r.value.tagName) == Str(tagName)
      ensures r.Some? ==> Get(r.value.name).Str? && Get(r.value.name).s in formats && formats[Get(r.value.name).s] == r.value
    {
      if tagName in bareHandlers {
        r := Some(formats[bareHandlers[tagName]]);
      } else {
        r := None;
      }
    }

    /** The format that handles `className`, if any. */
    method GetFormatTypeForClassName(className: string) returns (r: Option<Settings>)
      requires Valid()
      ensures r.Some? <==> exists n :: n in formats && Get(formats[n].className) == Str(className)
      ensures r.Some? ==> Get(r.value.className) == Str(className)
      ensures r.Some? ==> Get(r.value.name).Str? && Get(r.value.name).s in formats && formats[Get(r.value.name).s] == r.value
    {
      if className in classHandlers {
        r := Some(formats[classHandlers[className]]);
      } else {
        r := None;
      }
    }
  }
}
