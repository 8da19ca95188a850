/** The schema version (spec/doc.go) and the managed manifest annotations
    (spec/annotations.go). */
module ManagedAnnotations {
  const SCHEMA_VERSION := "v1beta"

  const RESERVED_PREFIX := "org.ocidoc."
  const KEY_SCHEMA := "org.ocidoc.schema"
  const KEY_COMPONENTS := "org.ocidoc.components"
  const KEY_DOCUMENT := "org.ocidoc.document.id"
  const KEY_VARIANT := "org.ocidoc.document.variant"

  /** A Go map read: the empty string when the key is absent. */
  function Get(m: map<string, string>, key: string): string {
    if key in m then m[key] else ""
  }
}
