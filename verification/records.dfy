/** The values the sink writer works on: records delivered by the broker, the
    documents made from them, the converters that make them, and the faults
    the writer can record. */
module Records {

  datatype Option<+T> = None | Some(value: T)

  datatype Result<+T> = Ok(value: T) | Err(fault: Fault)

  /** A Kafka Connect schema. Its name is optional: a schema built without a
      name reports a null name. */
  datatype Schema = Schema(name: Option<string>)

  /** The identity of one partition of one topic, the key of the offset table. */
  datatype TopicPartition = TopicPartition(topic: string, partition: int)

  /** A sink record. Both schemas are nullable in Kafka Connect's `SinkRecord`; the
      key and value payloads are kept as their string forms. */
  datatype Record = Record(
    topic: string,
    partition: int,
    keySchema: Option<Schema>,
    key: string,
    valueSchema: Option<Schema>,
    value: string,
    offset: int)
  {
    function Partition(): TopicPartition {
      TopicPartition(topic, partition)
    }
  }

  /** A storage document, as an ordered list of field names and values. */
  datatype Document = Document(fields: seq<(string, string)>)

  /** A converter advertises the schema names it handles and turns a record
      into a document; `None` stands for a conversion that throws. */
  datatype Converter = Converter(
    supportedSchemaNames: seq<string>,
    convert: Record -> Option<Document>)

  /** What the writer can record as its pending fault. */
  datatype Fault =
    | UnsupportedSchema(schema: Option<Schema>)  // no converter for the record
    | Unconvertible                              // the converter threw
    | NullSchema                                 // the record has no value schema
    | StoreFailed(error: string)                 // the gateway's store call threw
  {
    /** Only faults that are not an UnsupportedDataTypeException are retried. */
    predicate Retryable() {
      NullSchema? || StoreFailed?
    }
  }

  /** The text Java string concatenation produces for a possibly-null name. */
  function NameText(name: Option<string>): string {
    match name
    case Some(s) => s
    case None => "null"
  }
}
