/** The records the test suite passes around. */
module TestData {
  import opened JsValues

  /** One spreadsheet record: `id` is `Number(row[0])`, `name` is `String(row[1]).trim()`. */
  datatype PokemonData = PokemonData(id: JsNumber, name: string)

  /** The resolved configuration. The source's type says `environment` is 'qa' or
      'cert', but the value is not checked, so here it is any string. */
  datatype TestConfig = TestConfig(environment: string, secretKey: string)
}
