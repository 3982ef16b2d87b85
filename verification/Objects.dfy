/** Plain objects of the language: which names they have before anything is assigned. */
module Objects {

  /** Names that every object inherits from the object prototype. */
  const INHERITED: set<string> :=
    {"constructor", "hasOwnProperty", "isPrototypeOf", "propertyIsEnumerable", "toLocaleString", "toString",
     "valueOf", "__proto__", "__defineGetter__", "__defineSetter__", "__lookupGetter__", "__lookupSetter__"}

  /** Assigning text to this name does nothing: it is an accessor that takes objects only. */
  const PROTO := "__proto__"
}
