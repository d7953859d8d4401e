/**
 What an object's describe call yields, as the scan, the relationship walks and
 the aggregate pass use it.
 */
module Describe {

  datatype DuckType =
    | BooleanType | IntegerType | UnsignedType | HugeintType | FloatingType | DecimalType
    | DateType | TimeType | TimestampType | VarcharType | BlobType | StructType

  datatype Field = Field(
    name: string,
    sfType: string,
    duckType: DuckType,
    filterable: bool,
    sortable: bool,
    relationshipName: string,
    referenceTo: seq<string>,
    isRelationship: bool,
    children: seq<Field>)

  /** A child object whose field `field` refers to this one; the name may be empty. */
  datatype ChildRelationship = ChildRelationship(childObject: string, field: string, relationshipName: string)

  datatype ObjectDescribe = ObjectDescribe(
    objectName: string,
    fields: seq<Field>,
    childRelationships: seq<ChildRelationship>)
}
