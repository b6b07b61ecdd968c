/**
 * The shape of what the JSDoc parser (doctrine, called with `unwrap` and `sloppy`)
 * returns for a comment block. The parser itself is an external collaborator: the
 * model receives it as a function `parse: string -> Doc`.
 */
module JsDoc {
  import opened Wrappers

  /**
   * A parsed `{...}` type expression: a bare name (`Number`, `SomeType`), a type
   * application (`Number[]` and `Array<Number>` both give `expression` `Array`),
   * or any other form (nullable, union, record, ...). `expression` is the name of
   * the applied type when it is a name expression.
   */
  datatype TypeExpr =
    | NameExpr(name: string)
    | TypeApp(expression: Option<string>, applications: seq<TypeExpr>)
    | OtherType

  /** One `@title description` tag; `ty` is the parsed `{...}` type when the tag has one. */
  datatype Tag = Tag(title: string, description: Option<string>, ty: Option<TypeExpr>)

  /** A parsed comment: the free description text and its tags, in order. */
  datatype Doc = Doc(description: string, tags: seq<Tag>)
}
