/**
 * The policy `load` applies to an external key for which the section has
 * no child: the two presets of `InvalidKeyHandler.Preset`.
 */
module InvalidKeyHandler {
  import opened Errors

  datatype Preset = Silent | Exception

  /** The policy the configuration builder and `@YamlConfig` start from. */
  const DefaultPolicy: Preset := Exception

  /**
   * `handleInvalidKey`: SILENT returns with no effect, EXCEPTION throws an
   * InvalidKeyException carrying the offending key.
   */
  function HandleInvalidKey(p: Preset, key: string): (r: Result<()>)
    ensures p.Silent? <==> r.Ok?
    ensures p.Exception? ==> r == Err(InvalidKey(key))
  {
    match p
    case Silent => Ok(())
    case Exception => Err(InvalidKey(key))
  }
}
