/**
 The value `HTMLTemplate.update` returns (src/lib/html-template-result.ts):
 the compiled template, the values object it was given, and the processor
 that will render it.
 */
module HtmlTemplateResult {

  /** A JavaScript value as it is read out of a values object. */
  datatype Value = Undefined | Defined(text: string)

  /** A values object. It is an object, so what a result keeps is a reference
      to it, not a copy. */
  class ValuesObject {
    const properties: map<string, Value>

    constructor (properties: map<string, Value>)
      ensures this.properties == properties
    {
      this.properties := properties;
    }
  }

  /** `values[key]`: a missing property reads as `undefined`. */
  function Lookup(values: ValuesObject, key: string): Value
  {
    if key in values.properties then values.properties[key] else Undefined
  }

  /** A template processor, known by name. How a processor renders parts is
      not part of this model. */
  datatype TemplateProcessor = TemplateProcessor(name: string)

  const DefaultTemplateProcessor: TemplateProcessor := TemplateProcessor("defaultTemplateProcessor")

  /** The record. `T` is the compiled template's type. */
  datatype HTMLTemplateResult<T> = HTMLTemplateResult(template: T, values: ValuesObject, processor: TemplateProcessor)

  /** `new HTMLTemplateResult(htmlTemplate, values)`. */
  function NewHTMLTemplateResult<T>(htmlTemplate: T, values: ValuesObject): (r: HTMLTemplateResult<T>)
    ensures r.template == htmlTemplate
    ensures r.values == values
    ensures r.processor == DefaultTemplateProcessor
  {
    HTMLTemplateResult(htmlTemplate, values, DefaultTemplateProcessor)
  }
}
