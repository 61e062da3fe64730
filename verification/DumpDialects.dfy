/** How a dump writes table references for one driver. */
module DumpDialects {
  import opened Wrappers
  import opened Bytes
  import opened SqlQuoting
  import opened TableRefs

  datatype DumpDialect = DumpDialect(identifierQuote: Text, schemaQualified: bool, postgres: bool) {
    /** The dialect of a driver; an undeclared identifier quote is the standard one. */
    static function FromCapabilities(identifierQuote: Text, schemas: bool, postgres: bool): (d: DumpDialect)
      ensures d.identifierQuote != []
    {
      DumpDialect(if identifierQuote == [] then [DOUBLE_QUOTE] else identifierQuote, schemas, postgres)
    }

    predicate Qualifies() { schemaQualified || postgres }

    /** The schema a table reference is qualified with, if any. */
    function QualifyingSchema(schema: Option<Text>): Option<Text> {
      if Qualifies() && schema != Some([]) then schema else None
    }

    function DumpTableRef(schema: Option<Text>, table: Text): Text {
      TableRef(table, QualifyingSchema(schema), identifierQuote)
    }

    /** Two tables of a dump are referred to alike only if they are the same table of the same schema. */
    ghost predicate RefersUniquely() {
      forall schema1, table1, schema2, table2 ::
        DumpTableRef(schema1, table1) == DumpTableRef(schema2, table2) ==>
          table1 == table2 && QualifyingSchema(schema1) == QualifyingSchema(schema2)
    }
  }

  /** The name in a driver's quotes, or in double quotes if it declares none; with the schema before it, unless that is
      empty or the driver knows no schemas. */
  lemma DumpTableRefExactly(identifierQuote: Text, schemas: bool, postgres: bool, schema: Option<Text>, table: Text)
    ensures var quote := if identifierQuote == [] then Ascii("\"") else identifierQuote;
            DumpDialect.FromCapabilities(identifierQuote, schemas, postgres).DumpTableRef(schema, table) ==
            (if (schemas || postgres) && schema.Some? && schema.value != []
             then QuoteIdentifier(schema.value, quote) + Ascii(".") else []) + QuoteIdentifier(table, quote)
  {
    assert Ascii("\"") == [DOUBLE_QUOTE] && Ascii(".") == [DOT];
    assert [] + QuoteIdentifier(table, identifierQuote) == QuoteIdentifier(table, identifierQuote);
  }

  lemma DumpTableRefInjective(d: DumpDialect, schema1: Option<Text>, table1: Text, schema2: Option<Text>, table2: Text)
    requires d.Qualifies() ==> d.identifierQuote != [] && !RepeatsABlock(d.identifierQuote + [DOT])
    ensures d.DumpTableRef(schema1, table1) == d.DumpTableRef(schema2, table2) <==>
            table1 == table2 && d.QualifyingSchema(schema1) == d.QualifyingSchema(schema2)
  {
    if d.DumpTableRef(schema1, table1) == d.DumpTableRef(schema2, table2) {
      if d.Qualifies() {
        TableRefInjective(table1, d.QualifyingSchema(schema1), table2, d.QualifyingSchema(schema2), d.identifierQuote);
      } else {
        QuoteInjective(table1, table2, d.identifierQuote);
      }
    }
  }

  /** The dump of a driver refers to tables uniquely, unless it qualifies them and its quote repeats a block. */
  lemma DumpRefersUniquelyExactly(identifierQuote: Text, schemas: bool, postgres: bool)
    ensures var d := DumpDialect.FromCapabilities(identifierQuote, schemas, postgres);
            d.RefersUniquely() <==> !d.Qualifies() || !RepeatsABlock(d.identifierQuote + [DOT])
  {
    var d := DumpDialect.FromCapabilities(identifierQuote, schemas, postgres);
    if d.Qualifies() && RepeatsABlock(d.identifierQuote + [DOT]) {
      var table1, schema1, table2, schema2 := OtherQuotesAreAmbiguous(d.identifierQuote);
      assert d.DumpTableRef(schema1, table1) == d.DumpTableRef(schema2, table2);
    } else {
      forall schema1, table1, schema2, table2 | d.DumpTableRef(schema1, table1) == d.DumpTableRef(schema2, table2)
        ensures table1 == table2 && d.QualifyingSchema(schema1) == d.QualifyingSchema(schema2)
      {
        DumpTableRefInjective(d, schema1, table1, schema2, table2);
      }
    }
  }
}
