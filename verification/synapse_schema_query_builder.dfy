/**
  `SynapseSchemaQueryBuilder`: CREATE and DROP SCHEMA commands. The schema name
  is upper-cased and then quoted by `SynapseQuote::quoteSingleIdentifier`,
  which is not part of this model and is passed in as `quote`.
*/
module SynapseSchemaQueryBuilder {
  import opened CaseConverter

  const CreateSchemaKeyword := "CREATE SCHEMA "
  const DropSchemaKeyword := "DROP SCHEMA "

  /** The identifier both commands embed. */
  function SchemaIdentifier(quote: string -> string, schemaName: string): string {
    quote(StringToUpper(schemaName))
  }

  /** `getCreateSchemaCommand` */
  function CreateSchemaCommand(quote: string -> string, schemaName: string): (r: string)
    ensures |r| >= |CreateSchemaKeyword| && r[..|CreateSchemaKeyword|] == CreateSchemaKeyword
  {
    CreateSchemaKeyword + SchemaIdentifier(quote, schemaName)
  }

  /** `getDropSchemaCommand` */
  function DropSchemaCommand(quote: string -> string, schemaName: string): (r: string)
    ensures |r| >= |DropSchemaKeyword| && r[..|DropSchemaKeyword|] == DropSchemaKeyword
  {
    DropSchemaKeyword + SchemaIdentifier(quote, schemaName)
  }

  ghost predicate Injective(quote: string -> string) {
    forall a, b :: quote(a) == quote(b) ==> a == b
  }

  /** Create and drop for the same name embed the same quoted, upper-cased identifier after their keywords. */
  lemma CreateAndDropShareIdentifier(quote: string -> string, schemaName: string)
    ensures CreateSchemaCommand(quote, schemaName)[|CreateSchemaKeyword|..] == quote(StringToUpper(schemaName))
    ensures DropSchemaCommand(quote, schemaName)[|DropSchemaKeyword|..] == quote(StringToUpper(schemaName))
  {
  }

  /** Names equal up to ASCII case give the same commands. */
  lemma SchemaCommandsIgnoreCase(quote: string -> string, a: string, b: string)
    requires EqualIgnoringCase(a, b)
    ensures CreateSchemaCommand(quote, a) == CreateSchemaCommand(quote, b)
    ensures DropSchemaCommand(quote, a) == DropSchemaCommand(quote, b)
  {
    StringToUpperEqualIff(a, b);
  }

  /** With an injective quoting function, the create command identifies the name up to case, and no more. */
  lemma CreateSchemaCommandEqualIff(quote: string -> string, a: string, b: string)
    requires Injective(quote)
    ensures CreateSchemaCommand(quote, a) == CreateSchemaCommand(quote, b) <==> EqualIgnoringCase(a, b)
  {
    StringToUpperEqualIff(a, b);
    if CreateSchemaCommand(quote, a) == CreateSchemaCommand(quote, b) {
      CreateAndDropShareIdentifier(quote, a);
      CreateAndDropShareIdentifier(quote, b);
    }
  }

  /** The same for the drop command. */
  lemma DropSchemaCommandEqualIff(quote: string -> string, a: string, b: string)
    requires Injective(quote)
    ensures DropSchemaCommand(quote, a) == DropSchemaCommand(quote, b) <==> EqualIgnoringCase(a, b)
  {
    StringToUpperEqualIff(a, b);
    if DropSchemaCommand(quote, a) == DropSchemaCommand(quote, b) {
      CreateAndDropShareIdentifier(quote, a);
      CreateAndDropShareIdentifier(quote, b);
    }
  }
}
